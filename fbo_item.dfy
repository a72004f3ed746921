/** `RayTracerFboItem`, the Qt Quick item that owns the displayed image: its clamping
    properties, the choice between the CPU worker and a GPU kernel, the validated copy of
    finished tiles into the image and the queue of partial texture uploads. */
module FboItems {
  import opened Text
  import opened GraphicsApis
  import opened Tiles
  import opened Pixels
  import opened Images
  import opened RenderWorkers

  /** `std::clamp(v, lo, hi)`. */
  function ClampInt(v: int, lo: int, hi: int): (r: int)
    requires lo <= hi
    ensures lo <= r <= hi
    ensures lo <= v <= hi ==> r == v
    ensures v < lo ==> r == lo
    ensures hi < v ==> r == hi
  {
    if v < lo then lo else if hi < v then hi else v
  }

  /** The APIs for which the heuristics allow larger batches. */
  predicate FastApi(api: GraphicsApi) {
    api.Vulkan? || api.Direct3D11? || api.Metal?
  }

  /** `chooseTileSize`: 16, 24 or 32 by pixel count, 8 more on a fast API, 16 on the software
      renderer, clamped to [8, 48] (a clamp that never changes the value). */
  function ChooseTileSize(api: GraphicsApi, width: int, height: int): (tileSize: int)
    ensures 16 <= tileSize <= 40
    ensures api.Software? ==> tileSize == 16
    ensures !api.Software? && !FastApi(api) ==> tileSize <= 32
  {
    var pixels := width * height;
    var base := if pixels >= 2560 * 1440 then 32 else if pixels >= 1920 * 1080 then 24 else 16;
    var adjusted := if FastApi(api) then base + 8 else if api.Software? then 16 else base;
    ClampInt(adjusted, 8, 48)
  }

  /** `chooseMaxUploadsPerFrame`: 24, 20 or 16 by pixel count, 6 more on a fast API, 8 on the
      software renderer, clamped to [8, 40] (a clamp that never changes the value). */
  function ChooseMaxUploadsPerFrame(api: GraphicsApi, width: int, height: int): (maxUploads: int)
    ensures 8 <= maxUploads <= 30
    ensures api.Software? ==> maxUploads == 8
    ensures !api.Software? ==> 16 <= maxUploads
  {
    var pixels := width * height;
    var base := if pixels >= 2560 * 1440 then 16 else if pixels >= 1920 * 1080 then 20 else 24;
    var adjusted := if FastApi(api) then base + 6 else if api.Software? then 8 else base;
    ClampInt(adjusted, 8, 40)
  }

  /** Larger images get larger tiles and fewer uploads per frame. */
  lemma HeuristicsMonotone(api: GraphicsApi, w1: int, h1: int, w2: int, h2: int)
    requires w1 * h1 <= w2 * h2
    ensures ChooseTileSize(api, w1, h1) <= ChooseTileSize(api, w2, h2)
    ensures ChooseMaxUploadsPerFrame(api, w1, h1) >= ChooseMaxUploadsPerFrame(api, w2, h2)
  {
  }

  /** C++ `a / b` for a positive divisor: the quotient truncated toward zero. */
  function TruncDiv(a: int, b: int): (q: int)
    requires b > 0
    ensures a >= 0 ==> q * b <= a < q * b + b
    ensures a < 0 ==> q <= 0
  {
    if a >= 0 then a / b else -((-a) / b)
  }

  /** The progress of a GPU render after `frame` accumulated frames:
      `min(100, frame * 100 / max(1, samples))`. */
  function GpuProgress(frame: int, samples: int): (p: int)
    ensures p <= 100
    ensures frame >= 0 ==> 0 <= p
    ensures frame < 0 ==> p <= 0
    ensures frame >= 0 ==> (p == 100 <==> frame >= MaxInt(1, samples))
  {
    var target := MaxInt(1, samples);
    var q := TruncDiv(frame * 100, target);
    GpuProgressFull(frame, target, q);
    MinInt(100, q)
  }

  /** The truncated percentage reaches 100 exactly when the frame count reaches the target. */
  lemma GpuProgressFull(frame: int, target: int, q: int)
    requires target > 0 && q == TruncDiv(frame * 100, target)
    ensures frame >= 0 ==> (q >= 100 <==> frame >= target)
  {
    if frame < 0 {
    } else if q >= 100 {
      MulMonotone(100, q, target);
    } else if frame >= target {
      MulDistributes(q, target);
      MulMonotone(q + 1, 100, target);
    }
  }

  /** The GPU kernel `startRender` selects for a (normalised) compute backend on the window's
      graphics API, "" for the CPU path tracer. `cudaReady` and `vulkanReady` are the
      outcomes of initialising those tracers. */
  function ComputeKernel(backend: string, api: GraphicsApi, cudaReady: bool, vulkanReady: bool): string {
    if (backend == "auto" || backend == "opengl") && api.OpenGL? then "opengl"
    else if backend == "cuda" && cudaReady then "cuda"
    else if backend == "vulkan" && vulkanReady then "vulkan"
    else ""
  }

  /** The kernel is one of the three or none, and each kernel is chosen exactly when its
      backend is asked for (OpenGL also for `auto`) and available. */
  lemma ComputeKernelMeaning(backend: string, api: GraphicsApi, cudaReady: bool, vulkanReady: bool)
    ensures var kernel := ComputeKernel(backend, api, cudaReady, vulkanReady);
      (kernel == "" || kernel == "opengl" || kernel == "cuda" || kernel == "vulkan")
      && (kernel == "opengl" <==> (backend == "auto" || backend == "opengl") && api.OpenGL?)
      && (kernel == "cuda" <==> backend == "cuda" && cudaReady)
      && (kernel == "vulkan" <==> backend == "vulkan" && vulkanReady)
  {
  }

  /** The kernel selection of `startRender`, in its order: OpenGL compute when asked for (or
      `auto`) on an OpenGL window, then CUDA, then Vulkan, each of the last two dropped again
      when its tracer fails to initialise. */
  method SelectKernel(backend: string, api: GraphicsApi, cudaReady: bool, vulkanReady: bool)
    returns (gpu: bool, kernel: string)
    ensures kernel == ComputeKernel(backend, api, cudaReady, vulkanReady) && gpu == (kernel != "")
  {
    var isOpenGl := api == OpenGL;
    var wantsOpenGlCompute := backend == "auto" || backend == "opengl";
    var wantsCudaCompute := backend == "cuda";
    var wantsVulkanCompute := backend == "vulkan";

    gpu, kernel := false, "";
    if wantsOpenGlCompute && isOpenGl {
      gpu, kernel := true, "opengl";
    }
    if wantsCudaCompute {
      gpu, kernel := true, "cuda";
      if !cudaReady {
        gpu, kernel := false, "";
      }
    }
    if wantsVulkanCompute {
      gpu, kernel := true, "vulkan";
      if !vulkanReady {
        gpu, kernel := false, "";
      }
    }
  }

  /** `DirtyUpload`: a rectangle of the image waiting to be sent to the texture. */
  datatype DirtyUpload = DirtyUpload(yStart: int, xStart: int, width: int, height: int, pixels: seq<bv32>)

  /** The checks of `onTileRendered`: the corner lies in the image, the tile is non-empty and
      fits, and there is one pixel per tile slot. */
  predicate Accepts(width: nat, height: nat, yStart: int, xStart: int, tileWidth: int, tileHeight: int, size: nat) {
    0 <= yStart < height && 0 <= xStart < width && tileWidth > 0 && tileHeight > 0
    && xStart + tileWidth <= width && yStart + tileHeight <= height
    && size == tileWidth * tileHeight
  }

  /** The image after `onTileRendered(yStart, xStart, tileWidth, tileHeight, pixels)`. */
  function ApplyTile(img: seq<bv32>, width: nat, height: nat, yStart: int, xStart: int,
                     tileWidth: int, tileHeight: int, pixels: seq<bv32>): (r: seq<bv32>)
    requires |img| == width * height
    ensures |r| == |img|
  {
    if Accepts(width, height, yStart, xStart, tileWidth, tileHeight, |pixels|) then
      BlitRows(img, width, height, Block(yStart, xStart, tileWidth, tileHeight), pixels, tileHeight)
    else img
  }

  /** The image after the tile events are handled in order. */
  function ApplyEvents(img: seq<bv32>, width: nat, height: nat, events: seq<TileEvent>): (r: seq<bv32>)
    requires |img| == width * height
    ensures |r| == |img|
  {
    if events == [] then img
    else
      var e := events[|events| - 1];
      ApplyTile(ApplyEvents(img, width, height, events[..|events| - 1]), width, height,
                e.yStart, e.xStart, e.tileWidth, e.tileHeight, e.pixels)
  }

  /** A tile event the worker emits for the grid of the image passes every check. */
  lemma TileEventAccepted(g: Grid, shade: Shader, k: nat, e: TileEvent)
    requires IsTileEvent(g, shade, k, e)
    ensures Accepts(g.width, g.height, e.yStart, e.xStart, e.tileWidth, e.tileHeight, |e.pixels|)
  {
  }

  /** Handling the first `n` tiles the worker emits, in order, leaves every pixel of those tiles
      with its shaded word and every other pixel as it was. */
  lemma {:induction false} RenderedPixels(g: Grid, shade: Shader, img: seq<bv32>, tiles: seq<TileEvent>, x: nat, y: nat)
    requires ValidGrid(g) && |img| == g.width * g.height && x < g.width && y < g.height
    requires forall k :: 0 <= k < |tiles| ==> IsTileEvent(g, shade, k, tiles[k])
    ensures ApplyEvents(img, g.width, g.height, tiles)[Slot(g.width, g.height, x, y)]
      == if TileOf(g, x, y) < |tiles| then Shaded(g.height, shade, x, y) else img[Slot(g.width, g.height, x, y)]
  {
    if tiles != [] {
      var n := |tiles| - 1;
      var e := tiles[n];
      var prev := tiles[..n];
      assert forall k :: 0 <= k < |prev| ==> IsTileEvent(g, shade, k, prev[k]);
      RenderedPixels(g, shade, img, prev, x, y);
      TileEventAccepted(g, shade, n, e);
      var b := EventBlock(e);
      BlitRowsMeaning(ApplyEvents(img, g.width, g.height, prev), g.width, g.height, b, e.pixels, b.tileHeight, x, y);
      TileBlockCovers(g, n, x, y);
      CoveredOnce(g, n, x, y);
    }
  }

  /** After a complete render every pixel of a black image holds its shaded word. */
  lemma FullRender(g: Grid, shade: Shader, tiles: seq<TileEvent>, x: nat, y: nat)
    requires ValidGrid(g) && x < g.width && y < g.height && |tiles| == TotalTiles(g)
    requires forall k :: 0 <= k < |tiles| ==> IsTileEvent(g, shade, k, tiles[k])
    ensures ApplyEvents(seq(g.width * g.height, _ => Black), g.width, g.height, tiles)[Slot(g.width, g.height, x, y)]
      == Shaded(g.height, shade, x, y)
  {
    PixelInItsTile(g, x, y);
    RenderedPixels(g, shade, seq(g.width * g.height, _ => Black), tiles, x, y);
  }

  /** `RayTracerFboItem` with its CPU-side state. */
  class RayTracerFboItem {
    var renderWidth: int
    var renderHeight: int
    var samples: int
    var maxDepth: int
    var computeBackend: string
    var progress: int
    var rendering: bool
    /** `m_image`: `imageWidth * imageHeight` pixel words, row by row. */
    var image: array<bv32>
    var imageWidth: nat
    var imageHeight: nat
    var pendingUploads: seq<DirtyUpload>
    var fullUploadNeeded: bool
    /** `m_worker`, non-null while a CPU render runs. */
    var worker: RenderWorker?
    var repaintRequests: int
    var tileSize: int
    var maxUploadsPerFrame: int
    var gpuModeActive: bool
    var activeComputeKernel: string

    /** The properties stay within their clamps, the image matches its size and a worker
        renders exactly the image, with the item's tile size. */
    ghost predicate Valid()
      reads this
    {
      renderWidth >= 64 && renderHeight >= 64 && samples >= 1 && maxDepth >= 1
      && 0 <= progress <= 100
      && computeBackend != ""
      && image.Length == imageWidth * imageHeight
      && tileSize >= 8 && maxUploadsPerFrame >= 8
      && (worker != null ==> rendering && worker.width == imageWidth && worker.height == imageHeight
                             && worker.tileSize == tileSize)
    }

    /** The defaults, and an 800 by 450 black image. */
    constructor ()
      ensures Valid()
      ensures renderWidth == 800 && renderHeight == 450 && samples == 10 && maxDepth == 10
      ensures computeBackend == "auto" && progress == 0 && !rendering
      ensures imageWidth == 800 && imageHeight == 450 && fresh(image)
      ensures forall j :: 0 <= j < image.Length ==> image[j] == Black
      ensures pendingUploads == [] && fullUploadNeeded && worker == null && repaintRequests == 0
      ensures tileSize == 16 && maxUploadsPerFrame == 32 && !gpuModeActive && activeComputeKernel == ""
    {
      renderWidth, renderHeight, samples, maxDepth := 800, 450, 10, 10;
      computeBackend := "auto";
      progress, rendering := 0, false;
      image := new bv32[800 * 450](_ => Black);
      imageWidth, imageHeight := 800, 450;
      pendingUploads, fullUploadNeeded := [], true;
      worker := null;
      repaintRequests, tileSize, maxUploadsPerFrame := 0, 16, 32;
      gpuModeActive, activeComputeKernel := false, "";
    }

    /** `setRenderWidth`: at least 64. A value equal to the current width changes nothing and
        emits no signal; as the width is already at least 64 the stored width is
        `max(64, value)` either way. */
    method SetRenderWidth(value: int) returns (emitted: bool)
      requires Valid()
      modifies this`renderWidth
      ensures Valid() && renderWidth == MaxInt(64, value)
      ensures emitted <==> value != old(renderWidth)
    {
      if renderWidth == value {
        return false;
      }
      renderWidth := MaxInt(64, value);
      return true;
    }

    /** `setRenderHeight`: at least 64, as for the width. */
    method SetRenderHeight(value: int) returns (emitted: bool)
      requires Valid()
      modifies this`renderHeight
      ensures Valid() && renderHeight == MaxInt(64, value)
      ensures emitted <==> value != old(renderHeight)
    {
      if renderHeight == value {
        return false;
      }
      renderHeight := MaxInt(64, value);
      return true;
    }

    /** `setSamples`: at least 1. */
    method SetSamples(value: int) returns (emitted: bool)
      requires Valid()
      modifies this`samples
      ensures Valid() && samples == MaxInt(1, value)
      ensures emitted <==> value != old(samples)
    {
      if samples == value {
        return false;
      }
      samples := MaxInt(1, value);
      return true;
    }

    /** `setMaxDepth`: at least 1. */
    method SetMaxDepth(value: int) returns (emitted: bool)
      requires Valid()
      modifies this`maxDepth
      ensures Valid() && maxDepth == MaxInt(1, value)
      ensures emitted <==> value != old(maxDepth)
    {
      if maxDepth == value {
        return false;
      }
      maxDepth := MaxInt(1, value);
      return true;
    }

    /** `setComputeBackend`: stores the trimmed, lower-cased name unless it is empty or
        already the backend. */
    method SetComputeBackend(value: string) returns (emitted: bool)
      requires Valid()
      modifies this`computeBackend
      ensures Valid()
      ensures computeBackend == if Normalize(value) == "" then old(computeBackend) else Normalize(value)
      ensures emitted <==> Normalize(value) != "" && Normalize(value) != old(computeBackend)
    {
      var normalized := Normalize(value);
      if normalized == "" || normalized == computeBackend {
        return false;
      }
      computeBackend := normalized;
      return true;
    }

    /** `setProgress`: the value clamped to [0, 100]; the signal only on a change. */
    method SetProgress(value: int) returns (emitted: bool)
      modifies this`progress
      ensures progress == ClampInt(value, 0, 100)
      ensures emitted <==> old(progress) != ClampInt(value, 0, 100)
    {
      var clamped := ClampInt(value, 0, 100);
      if progress == clamped {
        return false;
      }
      progress := clamped;
      return true;
    }

    /** `setRendering`; the signal only on a change. */
    method SetRendering(value: bool) returns (emitted: bool)
      modifies this`rendering
      ensures rendering == value
      ensures emitted <==> old(rendering) != value
    {
      if rendering == value {
        return false;
      }
      rendering := value;
      return true;
    }

    /** `startRender` on a window whose graphics API is `api` (`Unknown` without a window).
        While rendering nothing happens. Otherwise a GPU kernel is chosen if the backend asks
        for one that is available; without one the image is replaced by a black one of the
        render size, the upload queue is emptied with a full upload pending, and a worker is
        created. Either way the tile size and upload budget are chosen for the API, progress
        is reset and rendering starts. */
    method StartRender(api: GraphicsApi, cudaReady: bool, vulkanReady: bool)
      requires Valid()
      modifies this`gpuModeActive, this`activeComputeKernel, this`repaintRequests, this`tileSize,
        this`maxUploadsPerFrame, this`progress, this`rendering, this`image, this`imageWidth,
        this`imageHeight, this`pendingUploads, this`fullUploadNeeded, this`worker
      ensures Valid()
      ensures old(rendering) ==> unchanged(this)
      ensures !old(rendering) ==> KernelChosen(api, cudaReady, vulkanReady) && RenderStarted(api)
      ensures !old(rendering) && gpuModeActive ==>
        image == old(image) && imageWidth == old(imageWidth) && imageHeight == old(imageHeight)
        && pendingUploads == old(pendingUploads) && fullUploadNeeded == old(fullUploadNeeded)
        && worker == old(worker)
      ensures !old(rendering) && !gpuModeActive ==>
        fresh(image) && ImageReset() && worker != null && fresh(worker)
        && worker.samples == samples && worker.depth == maxDepth
    {
      if rendering {
        return;
      }
      ChooseKernel(api, cudaReady, vulkanReady);
      if gpuModeActive {
        BeginRender(api);
      } else {
        StartCpuRender(api);
      }
    }

    /** The active kernel is the one `ComputeKernel` picks for the normalised backend, and GPU
        mode is on exactly when there is one. */
    ghost predicate KernelChosen(api: GraphicsApi, cudaReady: bool, vulkanReady: bool)
      reads this
    {
      activeComputeKernel == ComputeKernel(Normalize(computeBackend), api, cudaReady, vulkanReady)
      && gpuModeActive == (activeComputeKernel != "")
    }

    /** The kernel selection at the start of `startRender`. */
    method ChooseKernel(api: GraphicsApi, cudaReady: bool, vulkanReady: bool)
      requires Valid()
      modifies this`gpuModeActive, this`activeComputeKernel
      ensures Valid() && KernelChosen(api, cudaReady, vulkanReady)
    {
      var backend := Normalize(computeBackend);
      var gpu, kernel := SelectKernel(backend, api, cudaReady, vulkanReady);
      gpuModeActive, activeComputeKernel := gpu, kernel;
    }

    /** What both paths of `startRender` set: no repaints counted yet, the tile size and
        upload budget chosen for the API, progress 0 and rendering on. */
    ghost predicate RenderStarted(api: GraphicsApi)
      reads this
    {
      rendering && progress == 0 && repaintRequests == 0
      && tileSize == ChooseTileSize(api, renderWidth, renderHeight)
      && maxUploadsPerFrame == ChooseMaxUploadsPerFrame(api, renderWidth, renderHeight)
    }

    /** What the CPU path of `startRender` sets up: a black image of the render size, an
        empty upload queue and a full upload pending. */
    ghost predicate ImageReset()
      reads this, image
    {
      imageWidth == renderWidth && imageHeight == renderHeight
      && (forall j :: 0 <= j < image.Length ==> image[j] == Black)
      && pendingUploads == [] && fullUploadNeeded
    }

    /** The CPU path of `startRender`. */
    method StartCpuRender(api: GraphicsApi)
      requires Valid() && !rendering
      modifies this`repaintRequests, this`tileSize, this`maxUploadsPerFrame, this`progress,
        this`rendering, this`image, this`imageWidth, this`imageHeight, this`pendingUploads,
        this`fullUploadNeeded, this`worker
      ensures Valid() && RenderStarted(api) && fresh(image) && ImageReset()
      ensures worker != null && fresh(worker) && worker.samples == samples && worker.depth == maxDepth
    {
      ResetImage();
      BeginRender(api);
      worker := new RenderWorker(renderWidth, renderHeight, samples, maxDepth, tileSize);
    }

    /** The part of `startRender` shared by both paths. */
    method BeginRender(api: GraphicsApi)
      requires Valid() && worker == null
      modifies this`repaintRequests, this`tileSize, this`maxUploadsPerFrame, this`progress, this`rendering
      ensures Valid() && RenderStarted(api)
    {
      repaintRequests := 0;
      tileSize := ChooseTileSize(api, renderWidth, renderHeight);
      maxUploadsPerFrame := ChooseMaxUploadsPerFrame(api, renderWidth, renderHeight);
      var _ := SetProgress(0);
      var _ := SetRendering(true);
    }

    /** The locked block of the CPU path of `startRender`. */
    method ResetImage()
      requires Valid() && worker == null
      modifies this`image, this`imageWidth, this`imageHeight, this`pendingUploads, this`fullUploadNeeded
      ensures Valid() && fresh(image) && ImageReset()
    {
      image := new bv32[renderWidth * renderHeight](_ => Black);
      imageWidth, imageHeight := renderWidth, renderHeight;
      pendingUploads, fullUploadNeeded := [], true;
    }

    /** `stopRender`: GPU mode ends and rendering stops; a running worker is asked to stop and
        dropped. */
    method StopRender()
      requires Valid()
      modifies this`gpuModeActive, this`rendering, this`worker, worker
      ensures Valid() && !gpuModeActive && !rendering
      ensures worker == null
      ensures old(rendering && worker != null) ==> old(worker).stopRequested
    {
      gpuModeActive := false;
      if !rendering || worker == null {
        var _ := SetRendering(false);
        return;
      }
      worker.Stop();
      worker := null;
      var _ := SetRendering(false);
    }

    /** `onWorkerProgressUpdated`. */
    method OnWorkerProgressUpdated(value: int)
      requires Valid()
      modifies this`progress
      ensures Valid() && progress == ClampInt(value, 0, 100)
    {
      var _ := SetProgress(value);
    }

    /** `onWorkerFinished`: progress 100, rendering over, no worker. */
    method OnWorkerFinished()
      requires Valid()
      modifies this`progress, this`rendering, this`worker
      ensures Valid() && progress == 100 && !rendering && worker == null
    {
      var _ := SetProgress(100);
      var _ := SetRendering(false);
      worker := null;
    }

    /** `onTileRendered`: a tile that passes the checks is copied into the image row by row,
        queued for upload and counts as a repaint request; any other tile changes nothing. */
    method OnTileRendered(yStart: int, xStart: int, tileWidth: int, tileHeight: int, pixelData: seq<bv32>)
      requires Valid()
      modifies this`pendingUploads, this`repaintRequests, image
      ensures Valid()
      ensures image[..] == ApplyTile(old(image[..]), imageWidth, imageHeight, yStart, xStart, tileWidth, tileHeight, pixelData)
      ensures Accepts(imageWidth, imageHeight, yStart, xStart, tileWidth, tileHeight, |pixelData|) ==>
        pendingUploads == old(pendingUploads) + [DirtyUpload(yStart, xStart, tileWidth, tileHeight, pixelData)]
        && repaintRequests == old(repaintRequests) + 1
      ensures !Accepts(imageWidth, imageHeight, yStart, xStart, tileWidth, tileHeight, |pixelData|) ==>
        pendingUploads == old(pendingUploads) && repaintRequests == old(repaintRequests)
    {
      if yStart < 0 || yStart >= imageHeight {
        return;
      }
      if xStart < 0 || xStart >= imageWidth {
        return;
      }
      if tileWidth <= 0 || tileHeight <= 0 {
        return;
      }
      if xStart + tileWidth > imageWidth || yStart + tileHeight > imageHeight {
        return;
      }
      if |pixelData| != tileWidth * tileHeight {
        return;
      }
      BlitBlock(image, imageWidth, imageHeight, Block(yStart, xStart, tileWidth, tileHeight), pixelData);
      pendingUploads := pendingUploads + [DirtyUpload(yStart, xStart, tileWidth, tileHeight, pixelData)];
      repaintRequests := repaintRequests + 1;
    }

    /** The locked part of `updatePaintNode`: a pending full upload empties the queue;
        otherwise the first `min(maxUploadsPerFrame, n)` queued uploads are taken in order and
        the rest stay queued in order. */
    method DrainUploads() returns (uploads: seq<DirtyUpload>, fullUpload: bool, hasRemainingUploads: bool)
      requires Valid()
      modifies this`pendingUploads, this`fullUploadNeeded
      ensures Valid() && !fullUploadNeeded && fullUpload == old(fullUploadNeeded)
      ensures old(fullUploadNeeded) ==> uploads == [] && pendingUploads == [] && !hasRemainingUploads
      ensures !old(fullUploadNeeded) ==>
        |uploads| == MinInt(maxUploadsPerFrame, |old(pendingUploads)|)
        && uploads + pendingUploads == old(pendingUploads)
        && (hasRemainingUploads <==> pendingUploads != [])
    {
      uploads, fullUpload, hasRemainingUploads := [], false, false;
      if fullUploadNeeded {
        fullUpload := true;
        fullUploadNeeded := false;
        pendingUploads := [];
      } else if pendingUploads != [] {
        var uploadCount := MinInt(maxUploadsPerFrame, |pendingUploads|);
        for i := 0 to uploadCount
          invariant uploads == pendingUploads[..i]
        {
          uploads := uploads + [pendingUploads[i]];
        }
        if uploadCount < |pendingUploads| {
          var remaining := [];
          for i := uploadCount to |pendingUploads|
            invariant remaining == pendingUploads[uploadCount..i]
          {
            remaining := remaining + [pendingUploads[i]];
          }
          assert uploads + remaining == pendingUploads;
          pendingUploads := remaining;
          hasRemainingUploads := true;
        } else {
          pendingUploads := [];
        }
      }
    }
  }
}
