/** The `Effect` record the program keeps for the whole run: the screen
    size, the pointer and its influence radius, the sampling gap and the
    particle buffer, with the three routines that change it: its
    initialisation in `main`, `InitParticles` and `UpdateParticles`, and the
    per-frame loop of `main` that moves the pointer and updates. */
module ParticleEffect {
  import opened RaylibTypes
  import opened ParticleModel
  import opened Sampling
  import Arith

  /** The size `InitParticles` resizes an `imageWidth` x `imageHeight` image
      to: the largest size with the image's aspect ratio that fits the
      screen, one side filling the screen and the other truncated to an
      integer (`FitToScreenKeepsAspect` states it in integer arithmetic). */
  function FitToScreen(imageWidth: int, imageHeight: int, screenWidth: int, screenHeight: int): (dims: (int, int))
    requires imageWidth > 0 && imageHeight > 0 && screenWidth >= 0 && screenHeight >= 0
    ensures 0 <= dims.0 <= screenWidth && 0 <= dims.1 <= screenHeight
    ensures dims.0 == screenWidth || dims.1 == screenHeight
  {
    var aspectRatio := imageWidth as real / imageHeight as real;
    if screenWidth as real / aspectRatio <= screenHeight as real then
      (screenWidth, (screenWidth as real / aspectRatio).Floor)
    else
      ScaledWidthFits(screenWidth as real, screenHeight as real, aspectRatio);
      ((screenHeight as real * aspectRatio).Floor, screenHeight)
  }

  /** The fitted size in integer arithmetic: when the screen is relatively
      taller than the image the width fills it and the height keeps the
      image's proportion, rounded down; otherwise the height fills it and the
      width keeps the proportion. */
  lemma FitToScreenKeepsAspect(imageWidth: int, imageHeight: int, screenWidth: int, screenHeight: int)
    requires imageWidth > 0 && imageHeight > 0 && screenWidth >= 0 && screenHeight >= 0
    ensures FitToScreen(imageWidth, imageHeight, screenWidth, screenHeight)
         == if screenWidth * imageHeight <= screenHeight * imageWidth
            then (screenWidth, (screenWidth * imageHeight) / imageWidth)
            else ((screenHeight * imageWidth) / imageHeight, screenHeight)
  {
    AspectInIntegers(imageWidth, imageHeight, screenWidth, screenHeight);
  }

  /** The branch condition and the truncated sides of `FitToScreen`, computed
      in `float` by the source, in integer arithmetic. */
  lemma AspectInIntegers(iw: int, ih: int, sw: int, sh: int)
    requires iw > 0 && ih > 0 && sw >= 0 && sh >= 0
    ensures var aspectRatio := iw as real / ih as real;
      (sw as real / aspectRatio <= sh as real <==> sw * ih <= sh * iw) &&
      (sw as real / aspectRatio).Floor == (sw * ih) / iw &&
      (sh as real * aspectRatio).Floor == (sh * iw) / ih
  {
    var aspectRatio := iw as real / ih as real;
    assert sw as real / aspectRatio == (sw * ih) as real / iw as real;
    assert sh as real * aspectRatio == (sh * iw) as real / ih as real;
    Arith.MulMono(0, sw, 0, ih);
    Arith.MulMono(0, sh, 0, iw);
    FloorOfQuotient(sw * ih, iw);
    FloorOfQuotient(sh * iw, ih);
    QuotientAtMost(sw * ih, iw, sh);
  }

  /** When the height is the limiting side, the scaled width is below the
      screen width. */
  lemma ScaledWidthFits(sw: real, sh: real, aspectRatio: real)
    requires aspectRatio > 0.0 && sh >= 0.0 && sw / aspectRatio > sh
    ensures 0.0 <= sh * aspectRatio < sw
  {
    assert sw / aspectRatio * aspectRatio == sw;
    assert (sw / aspectRatio - sh) * aspectRatio > 0.0;
  }

  /** For a non-negative `a`, rounding the real quotient down gives the
      integer quotient. */
  lemma FloorOfQuotient(a: int, b: int)
    requires a >= 0 && b > 0
    ensures (a as real / b as real).Floor == a / b
  {
    var q, r := a / b, a % b;
    assert a as real == q as real * b as real + r as real;
    assert q as real <= a as real / b as real by {
      assert q as real * b as real <= a as real;
    }
    assert a as real / b as real < (q + 1) as real by {
      assert a as real < (q + 1) as real * b as real;
    }
  }

  lemma QuotientAtMost(a: int, b: int, c: int)
    requires b > 0
    ensures a as real / b as real <= c as real <==> a <= c * b
  {
    assert (a as real / b as real) * b as real == a as real;
  }

  /** A square image on an 800 x 600 screen becomes 600 x 600. */
  lemma SquareImageFitsHeight()
    ensures FitToScreen(10, 10, 800, 600) == (600, 600)
  {
    assert 10 as real / 10 as real == 1.0;
  }

  class Effect {
    var width: int
    var height: int
    var mouseRadius: int
    var gap: int
    var mouse: Vector2
    var particleCount: int
    /** The `malloc`ed particle buffer; a zero-length array stands for `NULL`. */
    var particles: array<Particle>

    /** Only the first `particleCount` entries are particles. */
    ghost predicate Valid()
      reads this
    {
      0 <= particleCount <= particles.Length
    }

    /** The initial `Effect` of `main`: the whole screen, radius 500, gap 2,
        the pointer at the screen centre and no particles yet. */
    constructor (screenWidth: int, screenHeight: int)
      ensures width == screenWidth && height == screenHeight
      ensures mouseRadius == 500 && gap == 2
      ensures mouse == Vector2(Arith.CDiv(screenWidth, 2) as real, Arith.CDiv(screenHeight, 2) as real)
      ensures particleCount == 0 && particles.Length == 0
      ensures Valid()
    {
      width := screenWidth;
      height := screenHeight;
      mouseRadius := 500;
      gap := 2;
      mouse := Vector2(Arith.CDiv(screenWidth, 2) as real, Arith.CDiv(screenHeight, 2) as real);
      particleCount := 0;
      particles := new Particle[0];
    }

    /** Fits the image to the screen, centres it, and writes one particle for
        every sampled pixel with a non-zero alpha, in row-major order.
        `pixels` are the colours of the image after it has been resized to
        `FitToScreen(...)`. The buffer holds every sampled cell and the count
        is the number of particles written. */
    method InitParticles(imageWidth: int, imageHeight: int, pixels: seq<Color>, screenWidth: int, screenHeight: int)
      requires imageWidth > 0 && imageHeight > 0 && screenWidth >= 0 && screenHeight >= 0
      requires gap > 0
      requires |pixels| == FitToScreen(imageWidth, imageHeight, screenWidth, screenHeight).0
                         * FitToScreen(imageWidth, imageHeight, screenWidth, screenHeight).1
      modifies this
      ensures fresh(particles) && Valid()
      ensures width == old(width) && height == old(height) && mouseRadius == old(mouseRadius)
      ensures gap == old(gap) && mouse == old(mouse)
      ensures var dims := FitToScreen(imageWidth, imageHeight, screenWidth, screenHeight);
        particles.Length == Capacity(dims.0, dims.1, gap) &&
        particles[..particleCount]
          == Emitted(pixels, dims.0, dims.1, gap, Offset(screenWidth, dims.0), Offset(screenHeight, dims.1))
    {
      var g := gap;
      var dims := FitToScreen(imageWidth, imageHeight, screenWidth, screenHeight);
      var newWidth, newHeight := dims.0, dims.1;
      var offsetX := (screenWidth - newWidth) / 2;
      var offsetY := (screenHeight - newHeight) / 2;
      ghost var target := Emitted(pixels, newWidth, newHeight, g, offsetX, offsetY);
      EmittedFitsCapacity(pixels, newWidth, newHeight, g, offsetX, offsetY);
      var buf := new Particle[((newWidth + g - 1) / g) * ((newHeight + g - 1) / g)];
      var index := 0;
      var y := 0;
      while y < newHeight
        modifies buf
        invariant 0 <= y && 0 <= index <= buf.Length && |target| <= buf.Length
        invariant buf[..index] + Emit(pixels, newWidth, ScanGrid(newWidth, newHeight, g, y), offsetX, offsetY)
               == target
        decreases newHeight - y
      {
        var ny := y + g;
        RowStart(pixels, newWidth, newHeight, g, y, ny, offsetX, offsetY, buf[..index], target);
        index := SampleRow(buf, index, pixels, newWidth, newHeight, g, y, offsetX, offsetY);
        y := ny;
      }
      GridEnd(pixels, newWidth, newHeight, g, y, offsetX, offsetY, buf[..index], target);
      particles := buf;
      particleCount := index;
    }

    /** The inner loop of `InitParticles` for row `y`: writes the particles
        of the row's opaque sampled pixels into `buf` from position `index`
        on and returns the position after the last one written. */
    static method SampleRow(buf: array<Particle>, index: int, pixels: seq<Color>, w: int, h: int, g: int,
                            y: int, offsetX: int, offsetY: int) returns (next: int)
      requires g > 0 && |pixels| == w * h && 0 <= y < h
      requires 0 <= index && index + |Emit(pixels, w, ScanRow(w, g, y, 0), offsetX, offsetY)| <= buf.Length
      modifies buf
      ensures index <= next <= buf.Length
      ensures buf[..next] == old(buf[..index]) + Emit(pixels, w, ScanRow(w, g, y, 0), offsetX, offsetY)
    {
      ghost var all := buf[..index] + Emit(pixels, w, ScanRow(w, g, y, 0), offsetX, offsetY);
      next := index;
      var x := 0;
      while x < w
        invariant 0 <= x && index <= next <= buf.Length && |all| <= buf.Length
        invariant buf[..next] + Emit(pixels, w, ScanRow(w, g, y, x), offsetX, offsetY) == all
        decreases w - x
      {
        var nx := x + g;
        var i := y * w + x;
        PixelRead(pixels, w, h, x, y, i);
        var color := pixels[i];
        CellStep(pixels, w, g, y, x, nx, offsetX, offsetY, color, buf[..next], all);
        if color.a > 0 {
          ghost var done := buf[..next];
          buf[next] := NewParticle(x + offsetX, y + offsetY, color);
          assert buf[..next + 1] == done + [NewParticle(x + offsetX, y + offsetY, color)];
          next := next + 1;
        }
        x := nx;
      }
      RowEnd(pixels, w, g, y, x, offsetX, offsetY, buf[..next], all);
    }

    /** One frame of the animation: every particle takes one `Step` with the
        current pointer; the entries past `particleCount` are not touched. */
    method UpdateParticles(math: MathFns)
      requires Valid()
      modifies particles
      ensures forall i :: 0 <= i < particleCount ==>
        particles[i] == Step(old(particles[i]), mouse, mouseRadius, math)
      ensures forall i :: particleCount <= i < particles.Length ==> particles[i] == old(particles[i])
    {
      var i := 0;
      while i < particleCount
        invariant 0 <= i <= particleCount
        invariant forall k :: 0 <= k < i ==> particles[k] == Step(old(particles[k]), mouse, mouseRadius, math)
        invariant forall k :: i <= k < particles.Length ==> particles[k] == old(particles[k])
      {
        var pushed := Push(particles[i], mouse, mouseRadius, math);
        particles[i] := Integrate(pushed);
        i := i + 1;
      }
    }

    /** The loop of `main`: in frame k the pointer is read as `pointers[k]`
        and the particles are updated; each particle ends where `Run` takes
        it. */
    method Animate(pointers: seq<Vector2>, math: MathFns)
      requires Valid()
      modifies this, particles
      ensures particles == old(particles) && particleCount == old(particleCount)
      ensures mouseRadius == old(mouseRadius) && gap == old(gap)
      ensures width == old(width) && height == old(height)
      ensures pointers != [] ==> mouse == pointers[|pointers| - 1]
      ensures pointers == [] ==> mouse == old(mouse)
      ensures forall i :: 0 <= i < particleCount ==>
        particles[i] == Run(old(particles[i]), pointers, mouseRadius, math)
      ensures forall i :: particleCount <= i < particles.Length ==> particles[i] == old(particles[i])
    {
      var k := 0;
      while k < |pointers|
        invariant 0 <= k <= |pointers| && Valid()
        invariant particles == old(particles) && particleCount == old(particleCount)
        invariant mouseRadius == old(mouseRadius) && gap == old(gap)
        invariant width == old(width) && height == old(height)
        invariant k > 0 ==> mouse == pointers[k - 1]
        invariant k == 0 ==> mouse == old(mouse)
        invariant forall i :: 0 <= i < particleCount ==>
          particles[i] == Run(old(particles[i]), pointers[..k], mouseRadius, math)
        invariant forall i :: particleCount <= i < particles.Length ==> particles[i] == old(particles[i])
      {
        mouse := pointers[k];
        UpdateParticles(math);
        forall i | 0 <= i < particleCount
          ensures particles[i] == Run(old(particles[i]), pointers[..k + 1], mouseRadius, math)
        {
          assert pointers[..k + 1] == pointers[..k] + [pointers[k]];
          RunAppend(old(particles[i]), pointers[..k], pointers[k], mouseRadius, math);
        }
        k := k + 1;
      }
      assert pointers[..k] == pointers;
    }
  }
}
