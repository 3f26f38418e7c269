/**
 Runs of drawing, announcing and flushing, on values: what the programs drew, what the hardware shows, which pixels are
 in a marked region, and which were drawn and not announced since.
 */
module ScreenRuns {
  import opened Arithmetic
  import opened Framebuffer
  import opened Screen

  /** One thing that a program or the driver does. */
  datatype Action =
    | DrawPixel(x: nat, y: nat, color: bv32)
    | Announce(x0: nat, y0: nat, x1: nat, y1: nat)
    | FlushAll

  predicate Allowed(m: Mode, a: Action) {
    match a
    case DrawPixel(x, y, _) => m.Pixel(x, y)
    case Announce(_, _, x1, y1) => x1 <= m.Width() && y1 <= m.Height()
    case FlushAll => true
  }

  predicate AllAllowed(m: Mode, actions: seq<Action>) {
    forall i | 0 <= i < |actions| :: Allowed(m, actions[i])
  }

  /** The two pictures, and the marked and the unannounced pixels. */
  datatype View = View(drawn: seq<bv32>, shown: seq<bv32>, marked: Pixels, pending: Pixels) {
    ghost predicate Sized(m: Mode) {
      |drawn| == |shown| == m.Width() * m.Height()
    }
  }

  /** The pixel at place `i` of a picture. */
  function PixelOf(m: Mode, i: nat): (int, int)
    requires i < m.Width() * m.Height()
  {
    assert m.Width() > 0;
    (i % m.Width(), i / m.Width())
  }

  lemma PlaceOfPixel(m: Mode, x: nat, y: nat)
    requires m.Pixel(x, y)
    ensures m.At(x, y) < m.Width() * m.Height() && PixelOf(m, m.At(x, y)) == (x, y)
  {
    m.PixelInBuffer(x, y);
    DivModUnique(m.At(x, y), y, x, m.Width());
  }

  /** One picture with the marked pixels of another. */
  ghost function Refreshed(m: Mode, shown: seq<bv32>, drawn: seq<bv32>, marked: Pixels): (s: seq<bv32>)
    requires |shown| == |drawn| == m.Width() * m.Height()
    ensures |s| == |shown|
  {
    seq(|shown|, i requires 0 <= i < |shown| => if PixelOf(m, i) in marked then drawn[i] else shown[i])
  }

  ghost function Step(m: Mode, v: View, a: Action): (v': View)
    requires v.Sized(m) && Allowed(m, a)
    ensures v'.Sized(m)
  {
    match a
    case DrawPixel(x, y, color) =>
      m.PixelInBuffer(x, y);
      v.(drawn := v.drawn[m.At(x, y) := color], pending := v.pending + iset{(x, y)})
    case Announce(x0, y0, x1, y1) =>
      var marked := Marked(x0, y0, x1, y1);
      v.(marked := v.marked + (iset p | p in marked && m.Pixel(p.0, p.1)), pending := v.pending - marked)
    case FlushAll =>
      v.(shown := Refreshed(m, v.shown, v.drawn, v.marked), marked := iset{}, pending := v.pending - v.marked)
  }

  ghost function RunOf(m: Mode, v: View, actions: seq<Action>): (v': View)
    requires v.Sized(m) && AllAllowed(m, actions)
    ensures v'.Sized(m)
    decreases |actions|
  {
    if actions == [] then v else Step(m, RunOf(m, v, actions[..|actions| - 1]), actions[|actions| - 1])
  }

  /** After a mode was set: two black pictures. */
  ghost function Blank(m: Mode): (v: View)
    ensures v.Sized(m)
  {
    View(seq(m.Width() * m.Height(), _ => 0), seq(m.Width() * m.Height(), _ => 0), iset{}, iset{})
  }

  // ---------- The buffers follow ----------

  /** Every pixel of the hardware is the one of the picture, and there is nothing else. */
  ghost predicate AllShown(m: Mode, hw: seq<Octet>, shown: seq<bv32>) {
    m.Valid() && |shown| == m.Width() * m.Height() && |hw| == m.Height() * m.pitch && PaddingClear(m, hw) &&
    forall x: int, y: int | m.Pixel(x, y) :: Shown(m, hw, shown, x, y)
  }

  /** What was neither marked nor left unannounced was copied, and the rest of the screen is as it was. */
  lemma FlushShows(m: Mode, hw: seq<Octet>, hw': seq<Octet>, diff: seq<bool>, diff': seq<bool>, v: View)
    requires v.Sized(m) && AllShown(m, hw, v.shown) && |diff| == m.columns * m.rows
    requires v.marked == DirtyPixels(m, diff)
    requires Coherent(m, hw', v.drawn, diff', v.pending - v.marked) && PaddingClear(m, hw')
    requires forall xs: nat, ys: nat | xs < m.columns && ys < m.rows :: !IsSet(m, diff', xs, ys)
    requires OnlyDirty(m, hw, hw', diff)
    ensures AllShown(m, hw', Refreshed(m, v.shown, v.drawn, v.marked))
  {
    hide Mode.At, PaddingClear, Converted, Mode.Valid, IsSet, PixelBytes;
    var shown := Refreshed(m, v.shown, v.drawn, v.marked);
    forall x: int, y: int | m.Pixel(x, y) ensures Shown(m, hw', shown, x, y) {
      PlaceOfPixel(m, x, y);
      if (x, y) in v.marked {
        assert !Dirty(m, diff', x, y);
        assert Shown(m, hw', v.drawn, x, y);
      } else {
        assert Shown(m, hw, v.shown, x, y);
        assert !Dirty(m, diff, x, y);
      }
    }
  }

  ghost predicate Follows(m: Mode, hw: seq<Octet>, fb: seq<bv32>, diff: seq<bool>, pending: Pixels, v: View) {
    v.Sized(m) && |diff| == m.columns * m.rows && fb == v.drawn && pending == v.pending &&
    DirtyPixels(m, diff) == v.marked && AllShown(m, hw, v.shown)
  }

  lemma BlankFollows(m: Mode, hw: seq<Octet>, fb: seq<bv32>, diff: seq<bool>)
    requires Coherent(m, hw, fb, diff, iset{}) && PaddingClear(m, hw)
    requires (forall i | 0 <= i < |diff| :: !diff[i]) && (forall i | 0 <= i < |fb| :: fb[i] == 0)
    ensures Follows(m, hw, fb, diff, iset{}, Blank(m))
  {
    assert fb == Blank(m).drawn;
    hide Mode.At, PaddingClear, Mode.Valid, PixelBytes, Shown;
    forall x: int, y: int | m.Pixel(x, y) ensures !Dirty(m, diff, x, y) {
      m.FlagIs(x / REGION, y / REGION);
    }
  }

  lemma AnnounceMarks(m: Mode, diff: seq<bool>, diff': seq<bool>, x0: nat, y0: nat, x1: nat, y1: nat)
    requires |diff| == |diff'| == m.columns * m.rows
    requires forall xs: nat, ys: nat | xs < m.columns && ys < m.rows ::
               IsSet(m, diff', xs, ys) == (IsSet(m, diff, xs, ys) || InBlock(x0, y0, x1, y1, xs, ys))
    ensures DirtyPixels(m, diff')
         == DirtyPixels(m, diff) + iset p | p in Marked(x0, y0, x1, y1) && m.Pixel(p.0, p.1)
  {
    hide IsSet;
    forall p: (int, int) | m.Pixel(p.0, p.1)
      ensures Dirty(m, diff', p.0, p.1) <==> Dirty(m, diff, p.0, p.1) || p in Marked(x0, y0, x1, y1)
    {
      assert IsSet(m, diff', p.0 / REGION, p.1 / REGION)
          == (IsSet(m, diff, p.0 / REGION, p.1 / REGION) || InBlock(x0, y0, x1, y1, p.0 / REGION, p.1 / REGION));
    }
  }

  lemma NoneDirty(m: Mode, diff: seq<bool>)
    requires |diff| == m.columns * m.rows
    requires forall xs: nat, ys: nat | xs < m.columns && ys < m.rows :: !IsSet(m, diff, xs, ys)
    ensures DirtyPixels(m, diff) == iset{}
  {
    hide IsSet;
  }

  method Act(screen: Screen, a: Action, ghost v: View)
    requires screen.Valid() && Allowed(screen.mode, a)
    requires Follows(screen.mode, screen.hw[..], screen.frameBuffer[..], screen.diff[..], screen.pending, v)
    modifies screen, screen.frameBuffer, screen.diff, screen.hw
    ensures screen.Valid()
    ensures Follows(screen.mode, screen.hw[..], screen.frameBuffer[..], screen.diff[..], screen.pending,
                    Step(screen.mode, v, a))
  {
    hide AllShown, OnlyDirty, PixelBytes, IsSet, Coherent, PaddingClear;
    screen.BufferSizes();
    ghost var hw, diff, fb := screen.hw[..], screen.diff[..], screen.frameBuffer[..];
    match a
    case DrawPixel(x, y, color) =>
      screen.Draw(x, y, color);
      assert screen.hw[..] == hw && screen.diff[..] == diff;
    case Announce(x0, y0, x1, y1) =>
      screen.Invalidate(x0, y0, x1, y1);
      assert screen.hw[..] == hw && screen.frameBuffer[..] == fb;
      AnnounceMarks(screen.mode, diff, screen.diff[..], x0, y0, x1, y1);
    case FlushAll =>
      screen.Flush();
      assert screen.frameBuffer[..] == fb;
      FlushShows(screen.mode, hw, screen.hw[..], diff, screen.diff[..], v);
      NoneDirty(screen.mode, screen.diff[..]);
  }

  /**
   After any run of actions the frame buffer, the marked regions and the unannounced pixels are the ones of the run on
   values, and the hardware buffer is, to the last byte, the picture of what the flushes copied.
   */
  method Run(mode: Mode, actions: seq<Action>) returns (screen: Screen)
    requires mode.Valid() && AllAllowed(mode, actions)
    ensures fresh(screen) && screen.Valid() && screen.mode == mode
    ensures var v := RunOf(mode, Blank(mode), actions);
      screen.frameBuffer[..] == v.drawn && screen.pending == v.pending &&
      |screen.diff[..]| == mode.columns * mode.rows &&
      DirtyPixels(mode, screen.diff[..]) == v.marked && screen.hw[..] == Picture(mode, v.shown)
  {
    screen := new Screen(mode);
    BlankFollows(mode, screen.hw[..], screen.frameBuffer[..], screen.diff[..]);
    ghost var v := Blank(mode);
    for i := 0 to |actions|
      invariant fresh(screen) && fresh(screen.frameBuffer) && fresh(screen.diff) && fresh(screen.hw)
      invariant screen.Valid() && screen.mode == mode && v.Sized(mode) && v == RunOf(mode, Blank(mode), actions[..i])
      invariant Follows(mode, screen.hw[..], screen.frameBuffer[..], screen.diff[..], screen.pending, v)
    {
      hide Follows, Step;
      assert actions[..i + 1][..i] == actions[..i];
      Act(screen, actions[i], v);
      v := Step(mode, v, actions[i]);
    }
    assert actions[..|actions|] == actions;
    ShownIsPicture(mode, screen.hw[..], v.shown);
  }

  // ---------- What the hardware shows ----------

  /** What is neither marked nor unannounced is on the screen. */
  ghost predicate UpToDate(m: Mode, v: View)
    requires v.Sized(m)
  {
    forall i: nat | i < |v.drawn| && PixelOf(m, i) !in v.marked && PixelOf(m, i) !in v.pending ::
      v.shown[i] == v.drawn[i]
  }

  lemma StepUpToDate(m: Mode, v: View, a: Action)
    requires v.Sized(m) && Allowed(m, a) && UpToDate(m, v)
    ensures UpToDate(m, Step(m, v, a))
  {
    hide Block;
    if a.DrawPixel? {
      PlaceOfPixel(m, a.x, a.y);
    }
    if a.Announce? {
      forall i: nat | i < |v.drawn| ensures m.Pixel(PixelOf(m, i).0, PixelOf(m, i).1) {
        BlockOf(i, m.Height(), m.Width());
      }
    }
  }

  lemma {:induction false} RunsUpToDate(m: Mode, actions: seq<Action>)
    requires AllAllowed(m, actions)
    ensures UpToDate(m, RunOf(m, Blank(m), actions))
    decreases |actions|
  {
    if actions != [] {
      var before, a := actions[..|actions| - 1], actions[|actions| - 1];
      RunsUpToDate(m, before);
      StepUpToDate(m, RunOf(m, Blank(m), before), a);
    }
  }

  predicate Draws(a: Action, p: (int, int)) {
    a.DrawPixel? && (a.x, a.y) == p
  }

  ghost predicate Announces(a: Action, p: (int, int)) {
    a.Announce? && p in Marked(a.x0, a.y0, a.x1, a.y1)
  }

  ghost predicate AnnouncedAfter(actions: seq<Action>, i: nat, p: (int, int)) {
    exists j :: i < j < |actions| && Announces(actions[j], p)
  }

  /** Every pixel drawn is announced later on. */
  ghost predicate AllAnnounced(actions: seq<Action>) {
    forall i | 0 <= i < |actions| && actions[i].DrawPixel? :: AnnouncedAfter(actions, i, (actions[i].x, actions[i].y))
  }

  /** An unannounced pixel was drawn, and not announced since. */
  lemma {:induction false} PendingWasDrawn(m: Mode, actions: seq<Action>, p: (int, int)) returns (i: nat)
    requires AllAllowed(m, actions) && p in RunOf(m, Blank(m), actions).pending
    ensures i < |actions| && Draws(actions[i], p) && !AnnouncedAfter(actions, i, p)
    decreases |actions|
  {
    hide Marked;
    var before, a := actions[..|actions| - 1], actions[|actions| - 1];
    if Draws(a, p) {
      i := |actions| - 1;
    } else {
      i := PendingWasDrawn(m, before, p);
      forall j | i < j < |actions| ensures !Announces(actions[j], p) {
        if j < |before| {
          assert !Announces(before[j], p);
        }
      }
    }
  }

  /** When everything drawn was announced, a flush makes the screen the picture that a full redraw would make. */
  lemma AnnouncedIsShown(m: Mode, actions: seq<Action>)
    requires m.Valid() && AllAllowed(m, actions) && AllAnnounced(actions)
    ensures var v := RunOf(m, Blank(m), actions + [FlushAll]);
      AllAllowed(m, actions + [FlushAll]) && v.drawn == RunOf(m, Blank(m), actions).drawn &&
      Picture(m, v.shown) == Picture(m, v.drawn)
  {
    var all := actions + [FlushAll];
    assert all[..|all| - 1] == actions && AllAllowed(m, all);
    var v, v' := RunOf(m, Blank(m), actions), RunOf(m, Blank(m), all);
    if p :| p in v.pending {
      var i := PendingWasDrawn(m, actions, p);
    }
    assert v.pending == iset{};
    RunsUpToDate(m, all);
    assert v'.shown == v'.drawn;
  }
}
