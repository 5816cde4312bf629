/** The brush canvas of the manual mosaic editor (`MosaicCanvas` in
    `gui/manual_editor.py`) and the bookkeeping of its "save all" action.

    Pixels are not modelled. A pixmap is the original image plus the list of
    brush dabs painted onto it since, each dab recording its clipped region
    and the effect it applied there. The canvas is a record, and every user
    action is a function from one record to the next. */
module Canvas {
  import opened Base

  /** The three brush modes. */
  datatype Mode = Blur | Pixelate | Erase

  /** What a dab did to its region: a Gaussian blur of the given radius, a
      down-and-up resize through `small` dimensions, or the original pixels
      copied back. */
  datatype Effect = GaussianBlur(radius: int) | Pixelated(smallWidth: int, smallHeight: int) | Restored

  /** One application of the brush to the region [x1, x2) × [y1, y2). */
  datatype Dab = Dab(x1: int, y1: int, x2: int, y2: int, effect: Effect)

  /** A pixmap: the dabs painted over the original, oldest first. */
  type Pixmap = seq<Dab>

  const OriginalPixmap: Pixmap := []

  /** Longest undo history the canvas keeps. */
  const MaxHistory: nat := 10

  datatype Canvas = Canvas(
    width: nat,
    height: nat,
    shown: Pixmap,
    history: seq<Pixmap>,
    size: int,
    strength: int,
    mode: Mode,
    drawing: bool)

  /** What every reachable canvas satisfies: a non-empty history of at most
      ten snapshots and brush settings inside their ranges. */
  predicate Valid(c: Canvas) {
    1 <= |c.history| <= MaxHistory && 1 <= c.size <= 100 && 1 <= c.strength <= 10
  }

  /** A new canvas: size 20, strength 5, blur, not drawing, and the original
      as the only snapshot. */
  function NewCanvas(width: nat, height: nat): (c: Canvas)
    ensures Valid(c)
    ensures c.shown == OriginalPixmap && c.history == [OriginalPixmap] && !c.drawing
  {
    Canvas(width, height, OriginalPixmap, [OriginalPixmap], 20, 5, Blur, false)
  }

  /** `max(lo, min(hi, v))`. */
  function Clamp(v: int, lo: int, hi: int): (r: int)
    requires lo <= hi
    ensures lo <= r <= hi
    ensures lo <= v <= hi ==> r == v
    ensures v < lo ==> r == lo
    ensures hi < v ==> r == hi
  {
    Max(lo, Min(hi, v))
  }

  function SetBrushSize(c: Canvas, size: int): (d: Canvas)
    ensures 1 <= d.size <= 100 && (1 <= size <= 100 ==> d.size == size)
    ensures d == c.(size := d.size)
  {
    c.(size := Clamp(size, 1, 100))
  }

  function SetBrushStrength(c: Canvas, strength: int): (d: Canvas)
    ensures 1 <= d.strength <= 10 && (1 <= strength <= 10 ==> d.strength == strength)
    ensures d == c.(strength := d.strength)
  {
    c.(strength := Clamp(strength, 1, 10))
  }

  /** The mode a name selects, if it is one of the three. */
  function ModeNamed(name: string): (m: Option<Mode>)
    ensures m.Some? <==> name in {"blur", "pixelate", "erase"}
  {
    if name == "blur" then Some(Blur)
    else if name == "pixelate" then Some(Pixelate)
    else if name == "erase" then Some(Erase)
    else None
  }

  /** `set_brush_mode`: any other name leaves the canvas unchanged. */
  function SetBrushMode(c: Canvas, name: string): (d: Canvas)
    ensures name !in {"blur", "pixelate", "erase"} ==> d == c
    ensures name in {"blur", "pixelate", "erase"} ==> d == c.(mode := ModeNamed(name).value)
  {
    match ModeNamed(name)
    case None => c
    case Some(m) => c.(mode := m)
  }

  /** `_save_state`: append the shown pixmap, then drop the oldest snapshot
      when there are more than ten. */
  function SaveState(c: Canvas): (d: Canvas)
    requires Valid(c)
    ensures Valid(d)
    ensures d == c.(history := d.history)
    ensures d.history[|d.history| - 1] == c.shown
    ensures |c.history| < MaxHistory ==> d.history == c.history + [c.shown]
    ensures |c.history| == MaxHistory ==> d.history == c.history[1..] + [c.shown]
  {
    var h := c.history + [c.shown];
    if |h| > MaxHistory then c.(history := h[1..]) else c.(history := h)
  }

  /** The brush square around (x, y), `size / 2` on each side, clipped to the
      image. */
  function BrushRegion(x: int, y: int, size: int, width: nat, height: nat): (r: (int, int, int, int))
    requires size >= 1
    ensures 0 <= r.0 && r.2 <= width && 0 <= r.1 && r.3 <= height
    ensures x - size / 2 <= r.0 && r.2 <= x + size / 2 && y - size / 2 <= r.1 && r.3 <= y + size / 2
    ensures r.2 - r.0 <= 2 * (size / 2) && r.3 - r.1 <= 2 * (size / 2)
    ensures (r.0 == 0 || r.0 == x - size / 2) && (r.1 == 0 || r.1 == y - size / 2)
    ensures (r.2 == width || r.2 == x + size / 2) && (r.3 == height || r.3 == y + size / 2)
    ensures 0 <= x - size / 2 && x + size / 2 <= width ==> r.0 == x - size / 2 && r.2 == x + size / 2
    ensures 0 <= y - size / 2 && y + size / 2 <= height ==> r.1 == y - size / 2 && r.3 == y + size / 2
  {
    var half := size / 2;
    (Max(0, x - half), Max(0, y - half), Min(width, x + half), Min(height, y + half))
  }

  /** The pixelate factor `max(2, 2 * strength)`. */
  function ScaleFactor(strength: int): (f: int)
    ensures f >= 2 && f >= 2 * strength
    ensures strength >= 1 ==> f == 2 * strength
    ensures strength < 1 ==> f == 2
  {
    Max(2, strength * 2)
  }

  /** The downsampled side: `max(1, side // factor)`. */
  function SmallSide(side: int, factor: int): (s: int)
    requires side >= 1 && factor >= 2
    ensures 1 <= s <= side
    ensures side >= factor ==> s * factor <= side < (s + 1) * factor
    ensures side < factor ==> s == 1
  {
    Max(1, side / factor)
  }

  /** The effect a mode applies to a region of the given size. */
  function EffectOf(mode: Mode, strength: int, regionWidth: int, regionHeight: int): (e: Effect)
    requires regionWidth >= 1 && regionHeight >= 1
    ensures mode == Blur ==> e.GaussianBlur? && e.radius >= 1 && e.radius >= strength
    ensures mode == Blur && strength >= 1 ==> e.radius == strength
    ensures mode == Blur && strength < 1 ==> e.radius == 1
    ensures mode == Pixelate ==> e.Pixelated? && 1 <= e.smallWidth <= regionWidth && 1 <= e.smallHeight <= regionHeight
    ensures mode == Pixelate ==>
              var f := ScaleFactor(strength);
              e == Pixelated(SmallSide(regionWidth, f), SmallSide(regionHeight, f))
    ensures mode == Erase <==> e == Restored
  {
    match mode
    case Blur => GaussianBlur(Max(1, strength))
    case Pixelate =>
      var f := ScaleFactor(strength);
      Pixelated(SmallSide(regionWidth, f), SmallSide(regionHeight, f))
    case Erase => Restored
  }

  /** `_apply_brush_effect` at (x, y): an empty clipped region changes
      nothing; otherwise one dab is painted. Nothing else changes. */
  function ApplyBrush(c: Canvas, x: int, y: int): (d: Canvas)
    requires Valid(c)
    ensures d == c.(shown := d.shown)
    ensures var r := BrushRegion(x, y, c.size, c.width, c.height);
            && (r.2 <= r.0 || r.3 <= r.1 ==> d.shown == c.shown)
            && (r.0 < r.2 && r.1 < r.3 ==>
                  |d.shown| == |c.shown| + 1 && d.shown[..|c.shown|] == c.shown
                  && var dab := d.shown[|c.shown|];
                     dab.x1 == r.0 && dab.y1 == r.1 && dab.x2 == r.2 && dab.y2 == r.3
                     && dab.effect == EffectOf(c.mode, c.strength, r.2 - r.0, r.3 - r.1))
  {
    var r := BrushRegion(x, y, c.size, c.width, c.height);
    if r.2 <= r.0 || r.3 <= r.1 then c
    else
      var dab := Dab(r.0, r.1, r.2, r.3, EffectOf(c.mode, c.strength, r.2 - r.0, r.3 - r.1));
      assert (c.shown + [dab])[..|c.shown|] == c.shown;
      c.(shown := c.shown + [dab])
  }

  /** Mouse events; `leftOnly` is whether the left button alone is held. */
  datatype MouseEvent =
    | Press(x: int, y: int, left: bool)
    | Move(x: int, y: int, leftOnly: bool)
    | Release(left: bool)

  /** The three mouse handlers. A left press snapshots the shown pixmap, then
      paints; a move paints only while drawing with the left button alone. */
  function OnMouse(c: Canvas, e: MouseEvent): (d: Canvas)
    requires Valid(c)
    ensures Valid(d)
    ensures d.width == c.width && d.height == c.height && d.size == c.size && d.strength == c.strength && d.mode == c.mode
    ensures e.Press? && e.left ==> d.drawing && d.history == SaveState(c).history
    ensures !(e.Press? && e.left) ==> d.history == c.history
    ensures e.Release? && e.left ==> !d.drawing && d.shown == c.shown
    ensures e.Move? && !(c.drawing && e.leftOnly) ==> d == c
    ensures e.Press? && !e.left ==> d == c
    ensures e.Release? && !e.left ==> d == c
    ensures e.Press? && e.left ==> d.shown == ApplyBrush(SaveState(c), e.x, e.y).shown
    ensures e.Move? && c.drawing && e.leftOnly ==> d.shown == ApplyBrush(c, e.x, e.y).shown
  {
    match e
    case Press(x, y, left) =>
      if left then ApplyBrush(SaveState(c).(drawing := true), x, y) else c
    case Move(x, y, leftOnly) =>
      if c.drawing && leftOnly then ApplyBrush(c, x, y) else c
    case Release(left) =>
      if left then c.(drawing := false) else c
  }

  /** `undo`: with more than one snapshot, drop the last and show the one
      before it; otherwise nothing happens. */
  function Undo(c: Canvas): (d: Canvas)
    requires Valid(c)
    ensures Valid(d)
    ensures |c.history| == 1 ==> d == c
    ensures |c.history| > 1 ==>
              d == c.(history := c.history[..|c.history| - 1], shown := c.history[|c.history| - 2])
  {
    if |c.history| > 1 then
      var h := c.history[..|c.history| - 1];
      c.(history := h, shown := h[|h| - 1])
    else c
  }

  /** `reset`: show the original and forget every snapshot but it. */
  function Reset(c: Canvas): (d: Canvas)
    requires Valid(c)
    ensures Valid(d)
    ensures d.shown == OriginalPixmap && d.history == [OriginalPixmap]
    ensures d == c.(shown := OriginalPixmap, history := [OriginalPixmap])
  {
    c.(shown := OriginalPixmap, history := [OriginalPixmap])
  }

  /** Undo right after a left press (with room in the history) gives back
      the history from before the press, and shows that history's last
      snapshot rather than the pixmap the press started from. */
  lemma UndoAfterPress(c: Canvas, x: int, y: int)
    requires Valid(c) && |c.history| < MaxHistory
    ensures var d := Undo(OnMouse(c, Press(x, y, true)));
            d.history == c.history && d.shown == c.history[|c.history| - 1]
  {
    var p := OnMouse(c, Press(x, y, true));
    assert p.history == c.history + [c.shown];
    assert p.history[..|p.history| - 1] == c.history;
  }

  /** A full stroke: press, one move, release. */
  function Stroke(c: Canvas, x: int, y: int, x2: int, y2: int): (d: Canvas)
    requires Valid(c)
    ensures Valid(d)
    ensures d.history == SaveState(c).history && !d.drawing
    ensures d.size == c.size && d.strength == c.strength && d.mode == c.mode
    ensures var p := ApplyBrush(SaveState(c), x, y);
            d.shown == ApplyBrush(p.(drawing := true), x2, y2).shown
    ensures |c.shown| <= |d.shown| <= |c.shown| + 2 && d.shown[..|c.shown|] == c.shown
  {
    OnMouse(OnMouse(OnMouse(c, Press(x, y, true)), Move(x2, y2, true)), Release(true))
  }

  /** A stroke adds exactly one snapshot, the pixmap shown before it. */
  lemma StrokeSnapshots(c: Canvas, x: int, y: int, x2: int, y2: int)
    requires Valid(c) && |c.history| < MaxHistory
    ensures Stroke(c, x, y, x2, y2).history == c.history + [c.shown]
  {
    var p := OnMouse(c, Press(x, y, true));
    assert p.history == c.history + [c.shown];
  }

  /** On a fresh canvas, two strokes and one undo show the original again,
      not the result of the first stroke: the undo drops the snapshot taken
      when the second stroke began and shows the one before it. */
  lemma TwoStrokesOneUndo(width: nat, height: nat, a: int, b: int, a2: int, b2: int,
                          p: int, q: int, p2: int, q2: int)
    ensures var c0 := NewCanvas(width, height);
            var c2 := Stroke(Stroke(c0, a, b, a2, b2), p, q, p2, q2);
            Undo(c2).shown == OriginalPixmap
  {
    var c0 := NewCanvas(width, height);
    var c1 := Stroke(c0, a, b, a2, b2);
    StrokeSnapshots(c0, a, b, a2, b2);
    var c2 := Stroke(c1, p, q, p2, q2);
    StrokeSnapshots(c1, p, q, p2, q2);
    assert c2.history == [OriginalPixmap, OriginalPixmap, c1.shown];
  }

  /** The undo the history is built for: every snapshot is taken just
      before a stroke paints, so the last one is what the canvas showed
      before the latest stroke, and undo should show that one as it drops
      it. */
  function UndoIntended(c: Canvas): (d: Canvas)
    requires Valid(c)
    ensures Valid(d)
    ensures |c.history| == 1 ==> d == c
    ensures |c.history| > 1 ==> |d.history| == |c.history| - 1 && d.shown == c.history[|c.history| - 1]
  {
    if |c.history| > 1 then
      c.(history := c.history[..|c.history| - 1], shown := c.history[|c.history| - 1])
    else c
  }

  /** The intended undo takes back exactly the latest stroke: the canvas
      shows again what it showed before, with the history from before. */
  lemma UndoIntendedRevertsStroke(c: Canvas, x: int, y: int, x2: int, y2: int)
    requires Valid(c) && |c.history| < MaxHistory
    ensures var d := UndoIntended(Stroke(c, x, y, x2, y2));
            d.shown == c.shown && d.history == c.history
  {
    StrokeSnapshots(c, x, y, x2, y2);
    var s := Stroke(c, x, y, x2, y2);
    assert s.history[..|s.history| - 1] == c.history;
  }

  /** Two strokes in the middle of a 100 × 100 image: the first one paints,
      yet undoing the second shows the original, while the intended undo
      shows the first stroke's result. */
  lemma UndoSkipsFirstStroke()
    ensures var c1 := Stroke(NewCanvas(100, 100), 50, 50, 50, 50);
            var c2 := Stroke(c1, 50, 50, 50, 50);
            && c1.shown != OriginalPixmap
            && Undo(c2).shown == OriginalPixmap
            && UndoIntended(c2).shown == c1.shown
  {
    var c0 := NewCanvas(100, 100);
    var c1 := Stroke(c0, 50, 50, 50, 50);
    assert BrushRegion(50, 50, 20, 100, 100) == (40, 40, 60, 60);
    assert |c1.shown| >= 1;
    TwoStrokesOneUndo(100, 100, 50, 50, 50, 50, 50, 50, 50, 50);
    StrokeSnapshots(c1, 50, 50, 50, 50);
  }

  /** After a reset, undo has nothing to undo. */
  lemma UndoAfterResetIsNoOp(c: Canvas)
    requires Valid(c)
    ensures Undo(Reset(c)) == Reset(c)
  {
  }

  // ----- _save_all -----

  /** How saving one modified image ended: its temp file is missing (skipped
      silently), no list entry has its name, the temp file does not load,
      the write reports failure or raises, or it was saved. */
  datatype SaveOutcome = TempMissing | NoOriginal | Unloadable | WriteFailed | Raised | Saved

  predicate IsFailure(o: SaveOutcome) {
    o == NoOriginal || o == Unloadable || o == WriteFailed || o == Raised
  }

  /** How many names end in `o`. */
  function CountOutcome(names: seq<string>, outcome: string -> SaveOutcome, o: SaveOutcome): (n: nat)
    ensures n <= |names|
    ensures n > 0 <==> exists i :: 0 <= i < |names| && outcome(names[i]) == o
  {
    if |names| == 0 then 0
    else
      var last := |names| - 1;
      CountOutcome(names[..last], outcome, o) + (if outcome(names[last]) == o then 1 else 0)
  }

  /** How many names fail. */
  function CountFailures(names: seq<string>, outcome: string -> SaveOutcome): (n: nat)
    ensures n <= |names|
    ensures n > 0 <==> exists i :: 0 <= i < |names| && IsFailure(outcome(names[i]))
  {
    if |names| == 0 then 0
    else
      var last := |names| - 1;
      CountFailures(names[..last], outcome) + (if IsFailure(outcome(names[last])) then 1 else 0)
  }

  /** Every name is skipped, failed or saved, exactly one of them. */
  lemma {:induction false} OutcomesPartition(names: seq<string>, outcome: string -> SaveOutcome)
    ensures CountOutcome(names, outcome, Saved) + CountFailures(names, outcome)
            + CountOutcome(names, outcome, TempMissing) == |names|
  {
    if |names| > 0 {
      OutcomesPartition(names[..|names| - 1], outcome);
    }
  }

  /** What "save all" reports: whether it asked for confirmation, the counts,
      and the names still marked as modified afterwards. */
  datatype SaveReport = SaveReport(asked: bool, saved: nat, failed: nat, remaining: seq<string>)

  /** `_save_all` over the modified names, in the order the set yields them.
      Nothing happens without modified images or without a "yes". */
  method SaveAll(modified: seq<string>, confirmed: bool, outcome: string -> SaveOutcome) returns (r: SaveReport)
    ensures modified == [] ==> r == SaveReport(false, 0, 0, [])
    ensures modified != [] && !confirmed ==> r == SaveReport(true, 0, 0, modified)
    ensures modified != [] && confirmed ==>
              && r.asked
              && r.saved == CountOutcome(modified, outcome, Saved)
              && r.failed == CountFailures(modified, outcome)
              && r.saved + r.failed <= |modified|
              && r.remaining == StillModified(modified, outcome)
  {
    if modified == [] {
      return SaveReport(false, 0, 0, []);
    }
    if !confirmed {
      return SaveReport(true, 0, 0, modified);
    }
    var saved, failed := Tally(modified, outcome);
    OutcomesPartition(modified, outcome);
    return SaveReport(true, saved, failed, if saved > 0 then [] else modified);
  }

  /** The loop of a confirmed save: each name is saved, fails or is
      skipped, and the saved and failed ones are counted. */
  method Tally(modified: seq<string>, outcome: string -> SaveOutcome) returns (saved: nat, failed: nat)
    ensures saved == CountOutcome(modified, outcome, Saved)
    ensures failed == CountFailures(modified, outcome)
  {
    saved, failed := 0, 0;
    var i := 0;
    while i < |modified|
      invariant 0 <= i <= |modified|
      invariant saved == CountOutcome(modified[..i], outcome, Saved)
      invariant failed == CountFailures(modified[..i], outcome)
    {
      var o := outcome(modified[i]);
      TallyStep(modified, i, outcome);
      saved := saved + (if o == Saved then 1 else 0);
      failed := failed + (if IsFailure(o) then 1 else 0);
      i := i + 1;
    }
    assert modified[..i] == modified;
  }

  /** The names still marked as modified after a confirmed save, as written:
      the whole set is cleared once any image was saved, so the names whose
      save failed lose their mark too. */
  function StillModified(modified: seq<string>, outcome: string -> SaveOutcome): (r: seq<string>)
    ensures (exists i :: 0 <= i < |modified| && outcome(modified[i]) == Saved) ==> r == []
    ensures !(exists i :: 0 <= i < |modified| && outcome(modified[i]) == Saved) ==> r == modified
  {
    if CountOutcome(modified, outcome, Saved) > 0 then [] else modified
  }

  /** The names still marked as modified as the comment on the clearing
      promises: exactly the ones that were not saved, in order. */
  function KeepUnsaved(modified: seq<string>, outcome: string -> SaveOutcome): (r: seq<string>)
    ensures |r| + CountOutcome(modified, outcome, Saved) == |modified|
    ensures forall k :: 0 <= k < |r| ==> outcome(r[k]) != Saved
  {
    if |modified| == 0 then []
    else
      var last := |modified| - 1;
      var rest := KeepUnsaved(modified[..last], outcome);
      if outcome(modified[last]) == Saved then rest else rest + [modified[last]]
  }

  /** A name stays marked exactly when it was modified and not saved. */
  lemma {:induction false} KeepUnsavedMembers(modified: seq<string>, outcome: string -> SaveOutcome)
    ensures forall n :: n in KeepUnsaved(modified, outcome) <==> n in modified && outcome(n) != Saved
  {
    if |modified| > 0 {
      var last := |modified| - 1;
      KeepUnsavedMembers(modified[..last], outcome);
      assert modified == modified[..last] + [modified[last]];
      assert forall n :: n in modified <==> n in modified[..last] || n == modified[last];
    }
  }

  /** One more name in the save loop adds its outcome to the counts. */
  lemma TallyStep(modified: seq<string>, i: nat, outcome: string -> SaveOutcome)
    requires i < |modified|
    ensures var o := outcome(modified[i]);
            && CountOutcome(modified[..i + 1], outcome, Saved)
               == CountOutcome(modified[..i], outcome, Saved) + (if o == Saved then 1 else 0)
            && CountFailures(modified[..i + 1], outcome)
               == CountFailures(modified[..i], outcome) + (if IsFailure(o) then 1 else 0)
  {
    var prefix := modified[..i + 1];
    assert prefix[..i] == modified[..i] && prefix[i] == modified[i];
  }

  /** When every image was saved, both unmark everything. */
  lemma {:induction false} AllSavedUnmarksAll(modified: seq<string>, outcome: string -> SaveOutcome)
    requires forall i :: 0 <= i < |modified| ==> outcome(modified[i]) == Saved
    ensures KeepUnsaved(modified, outcome) == StillModified(modified, outcome) == []
  {
    if |modified| > 0 {
      var last := |modified| - 1;
      AllSavedUnmarksAll(modified[..last], outcome);
      assert outcome(modified[0]) == Saved;
    }
  }

  /** When no image was saved, both keep every mark: the two definitions
      differ only after a partial failure. */
  lemma {:induction false} NoneSavedKeepsAll(modified: seq<string>, outcome: string -> SaveOutcome)
    requires forall i :: 0 <= i < |modified| ==> outcome(modified[i]) != Saved
    ensures KeepUnsaved(modified, outcome) == StillModified(modified, outcome) == modified
  {
    if |modified| > 0 {
      var last := |modified| - 1;
      NoneSavedKeepsAll(modified[..last], outcome);
      assert modified[..last] + [modified[last]] == modified;
    }
  }

  /** One saved image is enough to unmark every image, the failed ones too:
      `b.png` still has its edit only in the temporary folder, yet closing the
      editor no longer warns about it. */
  lemma FailedEditsUnmarked(outcome: string -> SaveOutcome)
    requires outcome("a.png") == Saved && outcome("b.png") == WriteFailed
    ensures CountOutcome(["a.png", "b.png"], outcome, Saved) == 1
    ensures CountFailures(["a.png", "b.png"], outcome) == 1
    ensures StillModified(["a.png", "b.png"], outcome) == []
    ensures KeepUnsaved(["a.png", "b.png"], outcome) == ["b.png"]
  {
    assert ["a.png", "b.png"][..1] == ["a.png"];
    assert ["a.png"][..0] == [];
  }
}
