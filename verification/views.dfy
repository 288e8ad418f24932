/**
 * The viewer's bookkeeping: a stack of views, each with its shader texts and
 * its share of the texture image units; the rule by which the render loop
 * commits a shader typed at the console; and the page keys that move through
 * the views. GL calls are left out; shader compilation is an oracle.
 */
module Views {

  /** The version line put in front of every fragment shader. */
  const GlslVersion: string := "#version 430\n"

  /** The uniform declarations every view starts with. */
  const DefaultUniforms: string :=
    "layout(location=42) uniform mat4 PROJ = mat4(1);\n"
    + "layout(location=43) uniform vec2 PX_SIZE;\n"
    + "layout(location=44) uniform float POINT_SIZE;\n"
    + "layout(location=45) uniform float DELTA_T = 0.005;\n"
    + "layout(location=46) uniform vec3 L = vec3(0, 0, 1);\n"

  /** The body of `main` every view starts with; the closing brace is added when compiling. */
  const DefaultSource: string :=
    "in vec3 p;\n"
    + "out vec4 color;\n"
    + "int i; float f;\n"
    + "void main() {\n"
    + "  color = vec4(p, 1);\n"

  /**
   * One view: its uniform declarations, its committed fragment source, the
   * source waiting to be compiled, and the image units it owns: a count and the
   * first unit of its own images and of the framebuffer images of the view
   * below (-1 while it has none).
   */
  datatype View = View(
    uniforms: string,
    source: string,
    pending: string,
    imageCount: nat,
    framebufferImageCount: nat,
    imageOffset: int,
    framebufferImageOffset: int)

  const DefaultView: View := View(DefaultUniforms, DefaultSource, "", 0, 0, -1, -1)

  /**
   * The viewer: the view stack, the active view, the number of image units
   * taken by all views, and the flag the console raises when a source waits.
   */
  datatype Viewer = Viewer(views: seq<View>, active: nat, imageCount: nat, reloadPending: bool)

  const Start: Viewer := Viewer([DefaultView], 0, 0, false)

  /** The active view exists. */
  predicate Ready(w: Viewer) {
    w.active < |w.views|
  }

  /** The text handed to the compiler for a view with fragment source `src`. */
  function FragmentText(v: View, src: string): string {
    GlslVersion + v.uniforms + src + "}"
  }

  // ---------------------------------------------------------------------------
  // Decimal numerals

  function DigitChar(d: nat): char
    requires d < 10
  {
    ('0' as int + d) as char
  }

  /** The decimal numeral of `n`, as `std::to_string` writes it. */
  function NatToString(n: nat): (s: string)
    ensures |s| >= 1
  {
    if n < 10 then [DigitChar(n)] else NatToString(n / 10) + [DigitChar(n % 10)]
  }

  /** The number a string of decimal digits denotes. */
  function DecimalValue(s: string): int {
    if |s| == 0 then 0 else 10 * DecimalValue(s[..|s| - 1]) + (s[|s| - 1] as int - '0' as int)
  }

  /** The numeral consists of digits, has no leading zero and denotes `n`. */
  lemma {:induction false} NatToStringDenotes(n: nat)
    ensures var s := NatToString(n);
      && (forall k :: 0 <= k < |s| ==> '0' <= s[k] <= '9')
      && (|s| > 1 ==> s[0] != '0')
      && DecimalValue(s) == n
  {
    if n >= 10 {
      NatToStringDenotes(n / 10);
      var p := NatToString(n / 10);
      var s := p + [DigitChar(n % 10)];
      assert s[..|s| - 1] == p;
    }
  }

  /** Distinct unit numbers get distinct numerals. */
  lemma NatToStringInjective(m: nat, n: nat)
    requires NatToString(m) == NatToString(n)
    ensures m == n
  {
    NatToStringDenotes(m);
    NatToStringDenotes(n);
  }

  /** The declaration of a sampler uniform at an explicit location. */
  function SamplerDecl(location: nat, name: string): string {
    "layout(location = " + NatToString(location) + ") uniform sampler2D " + name + ";\n"
  }

  // ---------------------------------------------------------------------------
  // Hot reload

  /** The console hands over a new source for the active view and raises the flag. */
  function Submit(w: Viewer, text: string): (r: Viewer)
    requires Ready(w)
    ensures Ready(r) && r.reloadPending && r.active == w.active && r.imageCount == w.imageCount
    ensures |r.views| == |w.views| && r.views[w.active].pending == text
    ensures r.views[w.active] == w.views[w.active].(pending := text)
    ensures forall i :: 0 <= i < |w.views| && i != w.active ==> r.views[i] == w.views[i]
  {
    w.(views := w.views[w.active := w.views[w.active].(pending := text)], reloadPending := true)
  }

  /**
   * The render loop's check for a waiting source: it compiles the pending
   * source of the active view and commits it only on success; the flag is
   * lowered either way.
   */
  function HotReload(w: Viewer, compiles: string -> bool): (r: Viewer)
    requires Ready(w)
    ensures Ready(r) && !r.reloadPending
    ensures r.active == w.active && r.imageCount == w.imageCount && |r.views| == |w.views|
  {
    if !w.reloadPending then w
    else
      var v := w.views[w.active];
      if compiles(FragmentText(v, v.pending)) then
        w.(views := w.views[w.active := v.(source := v.pending)], reloadPending := false)
      else w.(reloadPending := false)
  }

  /**
   * A submitted source becomes the active view's source exactly when it
   * compiles; otherwise the viewer keeps everything but the raised flag and the
   * pending text.
   */
  lemma SubmitThenReload(w: Viewer, text: string, compiles: string -> bool)
    requires Ready(w)
    ensures var v := w.views[w.active]; var r := HotReload(Submit(w, text), compiles);
      && !r.reloadPending
      && r.views[w.active].source == (if compiles(FragmentText(v, text)) then text else v.source)
      && r.views[w.active].uniforms == v.uniforms
      && (forall i :: 0 <= i < |w.views| && i != w.active ==> r.views[i] == w.views[i])
  {
  }

  /** With nothing waiting a reload does nothing, so a second reload changes nothing. */
  lemma HotReloadIdempotent(w: Viewer, compiles: string -> bool)
    requires Ready(w)
    ensures HotReload(HotReload(w, compiles), compiles) == HotReload(w, compiles)
  {
  }

  /** Every view's committed source, with the view's uniforms, compiles. */
  predicate AllCompile(w: Viewer, compiles: string -> bool) {
    forall i :: 0 <= i < |w.views| ==> compiles(FragmentText(w.views[i], w.views[i].source))
  }

  /** A reload never commits a source that does not compile. */
  lemma HotReloadKeepsCompiling(w: Viewer, compiles: string -> bool)
    requires Ready(w) && AllCompile(w, compiles)
    ensures AllCompile(HotReload(w, compiles), compiles)
  {
  }

  // ---------------------------------------------------------------------------
  // Page keys

  /** PAGEUP: the next view up, wrapping to the bottom view. */
  function PageUp(w: Viewer): (r: Viewer)
    requires |w.views| > 0
    ensures Ready(r) && r.views == w.views
  {
    w.(active := (w.active + 1) % |w.views|)
  }

  /** PAGEDOWN: the next view down, wrapping to the top view. */
  function PageDown(w: Viewer): (r: Viewer)
    requires |w.views| > 0
    ensures Ready(r) && r.views == w.views
  {
    w.(active := (if w.active == 0 then |w.views| - 1 else w.active - 1) % |w.views|)
  }

  /** PAGEDOWN undoes PAGEUP and PAGEUP undoes PAGEDOWN. */
  lemma PageKeysInverse(w: Viewer)
    requires Ready(w)
    ensures PageDown(PageUp(w)) == w
    ensures PageUp(PageDown(w)) == w
  {
    DownUndoesUp(w);
    UpUndoesDown(w);
  }

  lemma DownUndoesUp(w: Viewer)
    requires Ready(w)
    ensures PageDown(PageUp(w)).active == w.active
  {
    var n, a := |w.views|, w.active;
    if a + 1 < n {
      ModBelow(a + 1, n);
      ModBelow(a, n);
    } else {
      ModSelf(n);
      ModBelow(n - 1, n);
    }
  }

  lemma UpUndoesDown(w: Viewer)
    requires Ready(w)
    ensures PageUp(PageDown(w)).active == w.active
  {
    var n, a := |w.views|, w.active;
    if a == 0 {
      ModBelow(n - 1, n);
      ModSelf(n);
    } else {
      ModBelow(a - 1, n);
      ModBelow(a, n);
    }
  }

  lemma ModBelow(x: int, n: int)
    requires 0 <= x < n
    ensures x % n == x
  {
  }

  lemma ModSelf(n: int)
    requires n > 0
    ensures n % n == 0
  {
  }

  /** The page keys only move the active view. */
  lemma PageKeysMoveOnlyActive(w: Viewer)
    requires |w.views| > 0
    ensures PageUp(w) == w.(active := PageUp(w).active)
    ensures PageDown(w) == w.(active := PageDown(w).active)
    ensures Ready(w) && |w.views| > 1 ==> PageUp(w).active != w.active && PageDown(w).active != w.active
  {
  }

  /** The window's key-down message: the two page keys, any other key changes nothing here. */
  function OnWindowKey(w: Viewer, vk: nat): (r: Viewer)
    requires |w.views| > 0
    ensures |r.views| == |w.views|
    ensures vk != 0x21 && vk != 0x22 ==> r == w
  {
    var up := if vk == 0x21 then PageUp(w) else w;
    if vk == 0x22 then PageDown(up) else up
  }

  // ---------------------------------------------------------------------------
  // Image units

  /**
   * A new image for the active view: refused when every unit is taken;
   * otherwise it takes the next unit, declares a sampler for it and makes the
   * view's shader show it.
   */
  function CreateImage(w: Viewer, maxUnits: nat): (r: Viewer)
    requires Ready(w)
    ensures Ready(r) && r.active == w.active && |r.views| == |w.views|
    ensures r == w <==> w.imageCount >= maxUnits
    ensures w.imageCount <= maxUnits ==> r.imageCount <= maxUnits
  {
    if w.imageCount >= maxUnits then w
    else
      var v := w.views[w.active];
      var name := "img" + NatToString(w.imageCount);
      var v' := v.(
        uniforms := v.uniforms + SamplerDecl(w.imageCount, name),
        source := v.source + "  color = texture(" + name + ", (p.xy+1.)*.5);\n",
        imageOffset := if v.imageOffset < 0 then w.imageCount else v.imageOffset,
        imageCount := v.imageCount + 1);
      w.(views := w.views[w.active := v'], imageCount := w.imageCount + 1)
  }

  /** The color and depth images of a framebuffer, declared at the next two units of the active view. */
  function AddFramebufferImages(w: Viewer): (r: Viewer)
    requires Ready(w)
    ensures Ready(r) && r.active == w.active && |r.views| == |w.views|
    ensures r.imageCount == w.imageCount + 2
    ensures r.views[w.active].framebufferImageCount == w.views[w.active].framebufferImageCount + 2
    ensures forall i :: 0 <= i < |w.views| && i != w.active ==> r.views[i] == w.views[i]
  {
    var v := w.views[w.active];
    var v' := v.(
      uniforms := v.uniforms + SamplerDecl(w.imageCount, "COLORMAP") + SamplerDecl(w.imageCount + 1, "DEPTHMAP"),
      framebufferImageOffset := if v.framebufferImageOffset < 0 then w.imageCount else v.framebufferImageOffset,
      framebufferImageCount := v.framebufferImageCount + 2);
    w.(views := w.views[w.active := v'], imageCount := w.imageCount + 2)
  }

  /** The framebuffer as the viewer creates it: one unit is checked, two are taken. */
  function CreateFramebufferAsWritten(w: Viewer, maxUnits: nat): (r: Viewer)
    requires Ready(w)
    ensures Ready(r) && r.active == w.active && |r.views| == |w.views|
    ensures r == w <==> w.imageCount >= maxUnits
    ensures r != w ==> r.imageCount == w.imageCount + 2
  {
    if w.imageCount >= maxUnits then w else AddFramebufferImages(w)
  }

  /** The framebuffer refused unless both of its images get a unit. */
  function CreateFramebuffer(w: Viewer, maxUnits: nat): (r: Viewer)
    requires Ready(w)
    ensures Ready(r) && r.active == w.active && |r.views| == |w.views|
    ensures r == w <==> w.imageCount + 2 > maxUnits
    ensures r != w ==> r.imageCount == w.imageCount + 2
    ensures w.imageCount <= maxUnits ==> r.imageCount <= maxUnits
  {
    if w.imageCount + 2 > maxUnits then w else AddFramebufferImages(w)
  }

  /** The stack with a default view pushed on top and made active. */
  function Pushed(w: Viewer): (r: Viewer)
    ensures Ready(r) && r.active == |w.views| && |r.views| == |w.views| + 1
  {
    w.(views := w.views + [DefaultView], active := |w.views|)
  }

  /**
   * A new view on top of the stack becomes active, and the framebuffer that
   * lets it read the view below is set up with it, by the framebuffer as
   * written.
   */
  function PushView(w: Viewer, maxUnits: nat): (r: Viewer)
    ensures Ready(r) && r.active == |w.views| && |r.views| == |w.views| + 1
  {
    CreateFramebufferAsWritten(Pushed(w), maxUnits)
  }

  /** The push with the corrected framebuffer, which asks for two free units. */
  function PushViewChecked(w: Viewer, maxUnits: nat): (r: Viewer)
    ensures Ready(r) && r.active == |w.views| && |r.views| == |w.views| + 1
  {
    CreateFramebuffer(Pushed(w), maxUnits)
  }

  /**
   * The stack grows by one default view, made active; the views below are
   * untouched. The framebuffer's two images go to the new view whenever one
   * unit is free.
   */
  lemma PushViewGrows(w: Viewer, maxUnits: nat)
    ensures var r := PushView(w, maxUnits);
      && |r.views| == |w.views| + 1
      && r.active == |w.views|
      && r.views[..|w.views|] == w.views
      && r.views[|w.views|].source == DefaultSource
      && r.views[|w.views|].imageCount == 0
      && (w.imageCount < maxUnits ==>
            r.imageCount == w.imageCount + 2
            && r.views[|w.views|].framebufferImageCount == 2
            && r.views[|w.views|].framebufferImageOffset == w.imageCount)
      && (w.imageCount >= maxUnits ==> r.imageCount == w.imageCount && r.views[|w.views|] == DefaultView)
  {
    var pushed := Pushed(w);
    var r := PushView(w, maxUnits);
    if w.imageCount < maxUnits {
      assert r.views == pushed.views[|w.views| := r.views[|w.views|]];
    }
  }

  /** The corrected push grows the stack the same way, but takes units only when two are free. */
  lemma PushViewCheckedGrows(w: Viewer, maxUnits: nat)
    ensures var r := PushViewChecked(w, maxUnits);
      && |r.views| == |w.views| + 1
      && r.active == |w.views|
      && r.views[..|w.views|] == w.views
      && r.views[|w.views|].source == DefaultSource
      && r.views[|w.views|].imageCount == 0
      && (w.imageCount + 2 <= maxUnits ==>
            r.imageCount == w.imageCount + 2
            && r.views[|w.views|].framebufferImageCount == 2
            && r.views[|w.views|].framebufferImageOffset == w.imageCount)
      && (w.imageCount + 2 > maxUnits ==> r.imageCount == w.imageCount && r.views[|w.views|] == DefaultView)
  {
    var pushed := Pushed(w);
    var r := PushViewChecked(w, maxUnits);
    if w.imageCount + 2 <= maxUnits {
      assert r.views == pushed.views[|w.views| := r.views[|w.views|]];
    }
  }

  /**
   * A view's units: without an offset it owns none; with one, its units
   * start there and end at or below the global count.
   */
  predicate ViewUnits(v: View, total: nat) {
    && v.imageOffset >= -1 && v.framebufferImageOffset >= -1
    && (v.imageOffset < 0 ==> v.imageCount == 0)
    && (v.imageOffset >= 0 ==> v.imageOffset + v.imageCount <= total)
    && (v.framebufferImageOffset < 0 ==> v.framebufferImageCount == 0)
    && (v.framebufferImageOffset >= 0 ==> v.framebufferImageOffset + v.framebufferImageCount <= total)
  }

  /** The unit bookkeeping of the whole viewer, for a device with `maxUnits` units. */
  predicate UnitsOk(w: Viewer, maxUnits: nat) {
    && w.imageCount <= maxUnits
    && forall i :: 0 <= i < |w.views| ==> ViewUnits(w.views[i], w.imageCount)
  }

  lemma StartUnitsOk(maxUnits: nat)
    ensures UnitsOk(Start, maxUnits)
  {
  }

  /** A view's units stay within a count that grows. */
  lemma ViewUnitsGrow(v: View, total: nat, more: nat)
    requires ViewUnits(v, total) && total <= more
    ensures ViewUnits(v, more)
  {
  }

  /** A refused image changes nothing; an accepted one takes one unit and sets the offset only the first time. */
  lemma CreateImageUnits(w: Viewer, maxUnits: nat)
    requires Ready(w)
    ensures var r := CreateImage(w, maxUnits); var v := w.views[w.active]; var v' := r.views[w.active];
      && (w.imageCount >= maxUnits ==> r == w)
      && (w.imageCount < maxUnits ==>
            && r.imageCount == w.imageCount + 1
            && v'.imageCount == v.imageCount + 1
            && v'.imageOffset == (if v.imageOffset < 0 then w.imageCount else v.imageOffset)
            && v'.framebufferImageCount == v.framebufferImageCount
            && v'.uniforms == v.uniforms + SamplerDecl(w.imageCount, "img" + NatToString(w.imageCount))
            && (forall i :: 0 <= i < |w.views| && i != w.active ==> r.views[i] == w.views[i]))
  {
  }

  /** Creating an image keeps the unit bookkeeping sound. */
  lemma CreateImageKeepsUnits(w: Viewer, maxUnits: nat)
    requires Ready(w) && UnitsOk(w, maxUnits)
    ensures UnitsOk(CreateImage(w, maxUnits), maxUnits)
  {
    var r := CreateImage(w, maxUnits);
    forall i | 0 <= i < |r.views|
      ensures ViewUnits(r.views[i], r.imageCount)
    {
      ViewUnitsGrow(w.views[i], w.imageCount, r.imageCount);
    }
  }

  /** The corrected framebuffer keeps the unit bookkeeping sound. */
  lemma CreateFramebufferKeepsUnits(w: Viewer, maxUnits: nat)
    requires Ready(w) && UnitsOk(w, maxUnits)
    ensures UnitsOk(CreateFramebuffer(w, maxUnits), maxUnits)
  {
    var r := CreateFramebuffer(w, maxUnits);
    forall i | 0 <= i < |r.views|
      ensures ViewUnits(r.views[i], r.imageCount)
    {
      ViewUnitsGrow(w.views[i], w.imageCount, r.imageCount);
    }
  }

  /** A pushed default view owns no unit, so the bookkeeping stays sound. */
  lemma PushedKeepsUnits(w: Viewer, maxUnits: nat)
    requires UnitsOk(w, maxUnits)
    ensures UnitsOk(Pushed(w), maxUnits)
  {
    var pushed := Pushed(w);
    forall i | 0 <= i < |pushed.views|
      ensures ViewUnits(pushed.views[i], pushed.imageCount)
    {
      if i < |w.views| {
        assert pushed.views[i] == w.views[i];
      }
    }
  }

  /** The corrected push keeps the unit bookkeeping sound. */
  lemma PushViewKeepsUnits(w: Viewer, maxUnits: nat)
    requires UnitsOk(w, maxUnits)
    ensures UnitsOk(PushViewChecked(w, maxUnits), maxUnits)
  {
    PushedKeepsUnits(w, maxUnits);
    CreateFramebufferKeepsUnits(Pushed(w), maxUnits);
  }

  /**
   * The push as written keeps each view's units below the global count, but
   * the count can reach one past the number of units.
   */
  lemma PushViewUnits(w: Viewer, maxUnits: nat)
    requires UnitsOk(w, maxUnits)
    ensures var r := PushView(w, maxUnits);
      && r.imageCount <= maxUnits + 1
      && (forall i :: 0 <= i < |r.views| ==> ViewUnits(r.views[i], r.imageCount))
  {
    PushedKeepsUnits(w, maxUnits);
    CreateFramebufferAsWrittenUnits(Pushed(w), maxUnits);
  }

  /**
   * The framebuffer as written keeps each view's units below the global count,
   * but the global count can reach one past the number of units.
   */
  lemma CreateFramebufferAsWrittenUnits(w: Viewer, maxUnits: nat)
    requires Ready(w) && UnitsOk(w, maxUnits)
    ensures var r := CreateFramebufferAsWritten(w, maxUnits);
      && r.imageCount <= maxUnits + 1
      && (forall i :: 0 <= i < |r.views| ==> ViewUnits(r.views[i], r.imageCount))
  {
    var r := CreateFramebufferAsWritten(w, maxUnits);
    forall i | 0 <= i < |r.views|
      ensures ViewUnits(r.views[i], r.imageCount)
    {
      ViewUnitsGrow(w.views[i], w.imageCount, r.imageCount);
    }
  }

  /**
   * With one unit left the framebuffer as written is accepted: its depth image
   * is put on unit `maxUnits`, which does not exist, and the count passes the
   * number of units. The corrected one refuses.
   */
  lemma FramebufferOverrunsUnits(maxUnits: nat)
    requires maxUnits >= 1
    ensures var w := Start.(imageCount := maxUnits - 1);
      && UnitsOk(w, maxUnits)
      && CreateFramebufferAsWritten(w, maxUnits).imageCount == maxUnits + 1
      && CreateFramebufferAsWritten(w, maxUnits).views[0].uniforms
           == DefaultUniforms + SamplerDecl(maxUnits - 1, "COLORMAP") + SamplerDecl(maxUnits, "DEPTHMAP")
      && !UnitsOk(CreateFramebufferAsWritten(w, maxUnits), maxUnits)
      && CreateFramebuffer(w, maxUnits) == w
  {
  }

  /**
   * Pushing a view with one unit left: the push as written takes units
   * `maxUnits - 1` and `maxUnits` and leaves the count past the number of
   * units, as with four of five units taken, where the count becomes six.
   * The corrected push takes none.
   */
  lemma PushViewOverrunsUnits(w: Viewer, maxUnits: nat)
    requires UnitsOk(w, maxUnits) && w.imageCount + 1 == maxUnits
    ensures PushView(w, maxUnits).imageCount == maxUnits + 1
    ensures PushView(w, maxUnits).views[|w.views|].framebufferImageOffset == maxUnits - 1
    ensures !UnitsOk(PushView(w, maxUnits), maxUnits)
    ensures PushViewChecked(w, maxUnits).imageCount == w.imageCount
    ensures UnitsOk(PushViewChecked(w, maxUnits), maxUnits)
  {
    PushViewGrows(w, maxUnits);
    PushViewCheckedGrows(w, maxUnits);
    PushViewKeepsUnits(w, maxUnits);
  }

  // ---------------------------------------------------------------------------
  // Other operations keep the bookkeeping

  lemma SubmitKeepsUnits(w: Viewer, text: string, maxUnits: nat)
    requires Ready(w) && UnitsOk(w, maxUnits)
    ensures UnitsOk(Submit(w, text), maxUnits)
  {
    var r := Submit(w, text);
    assert forall i :: 0 <= i < |r.views| ==> r.views[i].imageCount == w.views[i].imageCount;
  }

  /** Reloads and page keys leave every unit where it was. */
  lemma ReloadAndPagesKeepUnits(w: Viewer, compiles: string -> bool, maxUnits: nat)
    requires Ready(w) && UnitsOk(w, maxUnits)
    ensures UnitsOk(HotReload(w, compiles), maxUnits)
    ensures UnitsOk(PageUp(w), maxUnits) && UnitsOk(PageDown(w), maxUnits)
  {
    var r := HotReload(w, compiles);
    forall i | 0 <= i < |r.views|
      ensures ViewUnits(r.views[i], r.imageCount)
    {
      assert r.views[i].imageCount == w.views[i].imageCount;
    }
  }
}
