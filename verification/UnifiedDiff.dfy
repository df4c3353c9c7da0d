/**
 * Applying a unified diff to the lines of a file, from the list of parsed hunks on.  The applier keeps a
 * running offset, and when the old lines are not at the expected place it looks for them up to 100 lines
 * before and after.  Of a hunk's header it uses the old start only, so a hunk that only inserts, whose
 * header names the line before the insertion, goes in one line early.
 */
module UnifiedDiff {

  type Line = string
  type Text = seq<Line>

  datatype HunkLine = Context(text: Line) | Deleted(text: Line) | Inserted(text: Line)
  /** `@@ -oldStart,oldCount +newStart,newCount @@`; line numbers count from 1. */
  datatype Hunk = Hunk(oldStart: nat, oldCount: nat, newStart: nat, newCount: nat, lines: seq<HunkLine>)

  /** A hunk taken apart: the lines it expects to find and the lines it leaves behind. */
  datatype Edit = Edit(start: int, expected: Text, inserted: Text) {
    function Growth(): int {
      |inserted| - |expected|
    }
  }

  const DRIFT: int := 100

  function OldSide(ls: seq<HunkLine>): Text {
    if ls == [] then []
    else OldSide(ls[..|ls| - 1]) + if ls[|ls| - 1].Inserted? then [] else [ls[|ls| - 1].text]
  }

  function NewSide(ls: seq<HunkLine>): Text {
    if ls == [] then []
    else NewSide(ls[..|ls| - 1]) + if ls[|ls| - 1].Deleted? then [] else [ls[|ls| - 1].text]
  }

  /** Where the applier expects a hunk. */
  function EditOf(h: Hunk): Edit {
    Edit(h.oldStart - 1, OldSide(h.lines), NewSide(h.lines))
  }

  function EditsOf(hunks: seq<Hunk>): seq<Edit> {
    if hunks == [] then [] else [EditOf(hunks[0])] + EditsOf(hunks[1..])
  }

  /** The sides of a hunk follow its lines: one after the other, in their order. */
  lemma {:induction false} SidesFollowLines(a: seq<HunkLine>, b: seq<HunkLine>)
    ensures OldSide(a + b) == OldSide(a) + OldSide(b) && NewSide(a + b) == NewSide(a) + NewSide(b)
    decreases |b|
  {
    if b == [] {
      assert a + b == a;
    } else {
      var init := b[..|b| - 1];
      assert (a + b)[..|a + b| - 1] == a + init;
      SidesFollowLines(a, init);
    }
  }

  /** A context line is on both sides, a deleted line on the old one, an inserted line on the new one. */
  lemma SidesOfLine(l: HunkLine)
    ensures OldSide([l]) == match l case Context(text) => [text] case Deleted(text) => [text] case Inserted(_) => []
    ensures NewSide([l]) == match l case Context(text) => [text] case Deleted(_) => [] case Inserted(text) => [text]
  {
    assert [l][..0] == [];
  }

  predicate OnOldSide(l: HunkLine) {
    l.Context? || l.Deleted?
  }

  predicate OnNewSide(l: HunkLine) {
    l.Context? || l.Inserted?
  }

  /** The text holds, in their order, exactly the lines that are kept, each at its position. */
  ghost predicate Picks(ls: seq<HunkLine>, keep: HunkLine -> bool, ps: seq<nat>, text: Text) {
    && (forall j, k | 0 <= j < k < |ps| :: ps[j] < ps[k])
    && (forall i: nat :: i in ps <==> i < |ls| && keep(ls[i]))
    && |text| == |ps| && forall k | 0 <= k < |ps| :: ps[k] < |ls| && text[k] == ls[ps[k]].text
  }

  lemma PicksOneMore(ls: seq<HunkLine>, l: HunkLine, keep: HunkLine -> bool, ps: seq<nat>, text: Text)
    requires Picks(ls, keep, ps, text)
    ensures if keep(l) then Picks(ls + [l], keep, ps + [|ls|], text + [l.text]) else Picks(ls + [l], keep, ps, text)
  {
    var longer := ls + [l];
    assert longer[|ls|] == l && forall i | 0 <= i < |ls| :: longer[i] == ls[i];
    if keep(l) {
      var qs := ps + [|ls|];
      assert forall k | 0 <= k < |ps| :: qs[k] == ps[k];
      forall i: nat ensures i in qs <==> i < |longer| && keep(longer[i]) {
        assert i in qs <==> i in ps || i == |ls|;
      }
    }
  }

  /** The old side is made of the lines that are not inserted, in their order. */
  lemma {:induction false} OldSidePositions(ls: seq<HunkLine>) returns (ps: seq<nat>)
    ensures Picks(ls, OnOldSide, ps, OldSide(ls))
    decreases |ls|
  {
    ps := [];
    if ls != [] {
      var init, last := ls[..|ls| - 1], ls[|ls| - 1];
      ps := OldSidePositions(init);
      PicksOneMore(init, last, OnOldSide, ps, OldSide(init));
      assert ls == init + [last];
      if OnOldSide(last) { ps := ps + [|init|]; }
    }
  }

  /** The new side is made of the lines that are not deleted, in their order. */
  lemma {:induction false} NewSidePositions(ls: seq<HunkLine>) returns (ps: seq<nat>)
    ensures Picks(ls, OnNewSide, ps, NewSide(ls))
    decreases |ls|
  {
    ps := [];
    if ls != [] {
      var init, last := ls[..|ls| - 1], ls[|ls| - 1];
      ps := NewSidePositions(init);
      PicksOneMore(init, last, OnNewSide, ps, NewSide(init));
      assert ls == init + [last];
      if OnNewSide(last) { ps := ps + [|init|]; }
    }
  }

  predicate MatchesAt(lines: Text, expected: Text, i: int) {
    0 <= i && i + |expected| <= |lines| && lines[i..i + |expected|] == expected
  }

  // ---------------------------------------------------------------- slice assignment

  /** How Python reads a slice bound: negative bounds count from the end, and both are clamped. */
  function Bound(n: nat, i: int): nat {
    if i < 0 then (if n + i < 0 then 0 else n + i) else if i > n then n else i
  }

  /** `lines[i:j] = inserted` */
  function Splice(lines: Text, i: int, j: int, inserted: Text): Text {
    var lo := Bound(|lines|, i);
    var hi := Bound(|lines|, j);
    lines[..lo] + inserted + lines[if hi < lo then lo else hi..]
  }

  /** In range, the lines between the bounds are replaced; a bound past the end means the end. */
  lemma SpliceMeans(lines: Text, i: int, j: int, inserted: Text)
    ensures 0 <= i <= j <= |lines| ==> Splice(lines, i, j, inserted) == lines[..i] + inserted + lines[j..]
    ensures |lines| <= i <= j ==> Splice(lines, i, j, inserted) == lines + inserted
    ensures 0 <= i <= |lines| <= j ==> Splice(lines, i, j, inserted) == lines[..i] + inserted
    ensures 0 < -i <= |lines| ==> Splice(lines, i, j, inserted) == Splice(lines, |lines| + i, j, inserted)
    ensures -i > |lines| ==> Splice(lines, i, j, inserted) == Splice(lines, 0, j, inserted)
    ensures 0 < -j <= |lines| ==> Splice(lines, i, j, inserted) == Splice(lines, i, |lines| + j, inserted)
  {
  }

  // ---------------------------------------------------------------- where a hunk goes

  /** The drift search, with `left` of its distances still to try. */
  function Scan(lines: Text, expected: Text, start: int, left: nat): int
    decreases left, |lines|
  {
    if left == 0 then start
    else
      var scan := DRIFT + 1 - left;
      if MatchesAt(lines, expected, start - scan) then start - scan
      else if MatchesAt(lines, expected, start + scan) then start + scan
      else Scan(lines, expected, start, left - 1)
  }

  function Place(lines: Text, expected: Text, start: int): int {
    if MatchesAt(lines, expected, start) then start else Scan(lines, expected, start, DRIFT)
  }

  method Locate(lines: Text, expected: Text, start: int) returns (at: int)
    ensures at == Place(lines, expected, start)
  {
    at := start;
    if MatchesAt(lines, expected, start) {
      return;
    }
    for scan := 1 to DRIFT + 1
      invariant Scan(lines, expected, start, DRIFT + 1 - scan) == Place(lines, expected, start)
    {
      if MatchesAt(lines, expected, start - scan) {
        return start - scan;
      }
      if MatchesAt(lines, expected, start + scan) {
        return start + scan;
      }
    }
  }

  function Distance(i: int, j: int): nat {
    if i < j then j - i else i - j
  }

  /** Which of two places comes first: the nearer one, at equal distance the earlier one. */
  predicate Before(start: int, i: int, j: int) {
    Distance(i, start) < Distance(j, start) || (Distance(i, start) == Distance(j, start) && i <= j)
  }

  lemma {:induction false} ScanIsNearest(lines: Text, expected: Text, start: int, left: nat, i: int)
    requires left <= DRIFT && MatchesAt(lines, expected, i) && DRIFT - left < Distance(i, start) <= DRIFT
    ensures var at := Scan(lines, expected, start, left); MatchesAt(lines, expected, at) && Before(start, at, i)
    decreases left
  {
    var scan := DRIFT + 1 - left;
    if !MatchesAt(lines, expected, start - scan) && !MatchesAt(lines, expected, start + scan) {
      ScanIsNearest(lines, expected, start, left - 1, i);
    }
  }

  /** A hunk whose old lines occur within the drift goes to the nearest place where they do. */
  lemma PlaceIsNearest(lines: Text, expected: Text, start: int, i: int)
    requires Distance(i, start) <= 100 && MatchesAt(lines, expected, i)
    ensures var at := Place(lines, expected, start); MatchesAt(lines, expected, at) && Before(start, at, i)
  {
    if !MatchesAt(lines, expected, start) {
      ScanIsNearest(lines, expected, start, DRIFT, i);
    }
  }

  lemma {:induction false} ScanWithoutMatch(lines: Text, expected: Text, start: int, left: nat)
    requires left <= DRIFT && forall i | Distance(i, start) <= DRIFT :: !MatchesAt(lines, expected, i)
    ensures Scan(lines, expected, start, left) == start
    decreases left
  {
    if left > 0 {
      var scan := DRIFT + 1 - left;
      assert Distance(start - scan, start) <= DRIFT && Distance(start + scan, start) <= DRIFT;
      ScanWithoutMatch(lines, expected, start, left - 1);
    }
  }

  /** Where they do not occur within the drift, the hunk is spliced in at the stated place regardless. */
  lemma PlaceWithoutMatch(lines: Text, expected: Text, start: int)
    requires forall i | Distance(i, start) <= 100 :: !MatchesAt(lines, expected, i)
    ensures Place(lines, expected, start) == start
  {
    ScanWithoutMatch(lines, expected, start, DRIFT);
  }

  // ---------------------------------------------------------------- the applier

  /** One hunk, spliced in at its place. */
  function ApplyOne(lines: Text, e: Edit, offset: int): Text {
    var at := Place(lines, e.expected, e.start + offset);
    Splice(lines, at, at + |e.expected|, e.inserted)
  }

  /** A way of applying one hunk at a given offset. */
  type Rule = (Text, Edit, int) -> Text

  /** The hunks one after the other, each applied to the lines rewritten so far. */
  function ApplyWith(apply: Rule, lines: Text, edits: seq<Edit>, offset: int): Text
    decreases |edits|
  {
    if edits == [] then lines
    else ApplyWith(apply, apply(lines, edits[0], offset), edits[1..], offset + edits[0].Growth())
  }

  function ApplyEdits(lines: Text, edits: seq<Edit>): Text {
    ApplyWith(ApplyOne, lines, edits, 0)
  }

  /** The loop over the lines of one hunk. */
  method TakeApart(h: Hunk) returns (e: Edit)
    ensures e == EditOf(h)
  {
    var expectedDeleted, inserted: Text := [], [];
    for i := 0 to |h.lines|
      invariant expectedDeleted == OldSide(h.lines[..i]) && inserted == NewSide(h.lines[..i])
    {
      assert h.lines[..i + 1][..i] == h.lines[..i];
      match h.lines[i] {
        case Deleted(text) => expectedDeleted := expectedDeleted + [text];
        case Inserted(text) => inserted := inserted + [text];
        case Context(text) => expectedDeleted, inserted := expectedDeleted + [text], inserted + [text];
      }
    }
    assert h.lines[..|h.lines|] == h.lines;
    e := Edit(h.oldStart - 1, expectedDeleted, inserted);
  }

  method ApplyUnifiedDiff(lines: Text, hunks: seq<Hunk>) returns (result: Text)
    ensures result == ApplyEdits(lines, EditsOf(hunks))
  {
    result := ApplyLoop(lines, hunks, ApplyOne);
  }

  /** The loop over the hunks. */
  method ApplyLoop(lines: Text, hunks: seq<Hunk>, ghost apply: Rule) returns (result: Text)
    requires forall l, e, o {:trigger ApplyOne(l, e, o)} :: apply(l, e, o) == ApplyOne(l, e, o)
    ensures result == ApplyWith(apply, lines, EditsOf(hunks), 0)
  {
    result := lines;
    var offset := 0;
    assert hunks[0..] == hunks;
    for k := 0 to |hunks|
      invariant ApplyWith(apply, result, EditsOf(hunks[k..]), offset) == ApplyWith(apply, lines, EditsOf(hunks), 0)
    {
      var e := TakeApart(hunks[k]);
      NextEdit(hunks, k);
      var actualStart := Locate(result, e.expected, e.start + offset);
      assert apply(result, e, offset) == ApplyOne(result, e, offset);
      result := Splice(result, actualStart, actualStart + |e.expected|, e.inserted);
      offset := offset + |e.inserted| - |e.expected|;
    }
  }

  lemma NextEdit(hunks: seq<Hunk>, k: nat)
    requires k < |hunks|
    ensures EditsOf(hunks[k..]) != [] && EditsOf(hunks[k..])[0] == EditOf(hunks[k])
    ensures EditsOf(hunks[k..])[1..] == EditsOf(hunks[k + 1..])
  {
    assert hunks[k..][1..] == hunks[k + 1..];
  }

  // ---------------------------------------------------------------- where the format puts a hunk

  /** The lines before a range with this header: an empty range is named by the line before it. */
  function Stands(start: nat, count: nat): int {
    if count == 0 then start else start - 1
  }

  function PlacedEdit(h: Hunk): Edit {
    Edit(Stands(h.oldStart, h.oldCount), OldSide(h.lines), NewSide(h.lines))
  }

  function Placed(hunks: seq<Hunk>): seq<Edit> {
    if hunks == [] then [] else [PlacedEdit(hunks[0])] + Placed(hunks[1..])
  }

  /** The headers count the lines of both sides and name the new places; `shift` is the growth so far. */
  predicate HeadersRight(hunks: seq<Hunk>, shift: int)
    decreases |hunks|
  {
    hunks == [] ||
    var h := hunks[0];
    && h.oldCount == |OldSide(h.lines)| && h.newCount == |NewSide(h.lines)|
    && Stands(h.newStart, h.newCount) == Stands(h.oldStart, h.oldCount) + shift
    && HeadersRight(hunks[1..], shift + EditOf(h).Growth())
  }

  /** From line `from` on, the hunks ascend, do not overlap, and match the original where they say. */
  predicate Fits(orig: Text, edits: seq<Edit>, from: nat)
    decreases |edits|
  {
    from <= |orig| &&
    (edits != [] ==>
       from <= edits[0].start && MatchesAt(orig, edits[0].expected, edits[0].start)
       && Fits(orig, edits[1..], edits[0].start + |edits[0].expected|))
  }

  /** A diff of the original, as the format defines it. */
  predicate IsDiff(orig: Text, hunks: seq<Hunk>) {
    Fits(orig, Placed(hunks), 0) && HeadersRight(hunks, 0)
  }

  /** The original from line `from` on, with all old sides replaced by the new sides at once. */
  function Replaced(orig: Text, edits: seq<Edit>, from: nat): Text
    requires Fits(orig, edits, from)
    decreases |edits|
  {
    if edits == [] then orig[from..]
    else orig[from..edits[0].start]
         + (edits[0].inserted + Replaced(orig, edits[1..], edits[0].start + |edits[0].expected|))
  }

  /** One edit replaces its old lines where they stand and leaves all other lines alone. */
  lemma ReplacedOne(before: Text, expected: Text, inserted: Text, after: Text)
    ensures var orig, edit := before + (expected + after), Edit(|before|, expected, inserted);
            Fits(orig, [edit], 0) && Replaced(orig, [edit], 0) == before + (inserted + after)
  {
    var orig, edit := before + (expected + after), Edit(|before|, expected, inserted);
    assert orig[|before|..|before| + |expected|] == expected;
    assert [edit][1..] == [];
    assert orig[0..|before|] == before && orig[|before| + |expected|..] == after;
  }

  /** What a diff makes of the original. */
  function Patched(orig: Text, hunks: seq<Hunk>): Text
    requires IsDiff(orig, hunks)
  {
    Replaced(orig, Placed(hunks), 0)
  }

  /** Putting the lines in before the last line of `front` rather than after it makes no difference. */
  predicate Repeats(front: Text, inserted: Text) {
    front == [] || forall l | l in inserted :: l == front[|front| - 1]
  }

  /** Every hunk without an old side only repeats the line that the result has before it, or stands at the top. */
  predicate Harmless(orig: Text, edits: seq<Edit>, from: nat, done: Text)
    requires Fits(orig, edits, from)
    decreases |edits|
  {
    edits == [] ||
    var e, front := edits[0], done + orig[from..edits[0].start];
    && (e.expected == [] ==> Repeats(front, e.inserted))
    && Harmless(orig, edits[1..], e.start + |e.expected|, front + e.inserted)
  }

  // ---------------------------------------------------------------- cutting the text into pieces

  /** A text cut at the places where hunks change it. */
  datatype Pieces = Tail(text: Text) | Piece(gap: Text, expected: Text, inserted: Text, rest: Pieces)

  function OldText(p: Pieces): Text {
    match p case Tail(text) => text case Piece(gap, expected, _, rest) => gap + (expected + OldText(rest))
  }

  function NewText(p: Pieces): Text {
    match p case Tail(text) => text case Piece(gap, _, inserted, rest) => gap + (inserted + NewText(rest))
  }

  /** The hunks of a cut text whose first line has the number `from`, where the format puts them. */
  function Changes(p: Pieces, from: nat): seq<Edit> {
    match p
    case Tail(_) => []
    case Piece(gap, expected, inserted, rest) =>
      [Edit(from + |gap|, expected, inserted)] + Changes(rest, from + |gap| + |expected|)
  }

  /** The same hunks where the applier expects them. */
  function Expected(p: Pieces, from: nat): seq<Edit> {
    match p
    case Tail(_) => []
    case Piece(gap, expected, inserted, rest) =>
      [Edit(from + |gap| - Early(expected), expected, inserted)] + Expected(rest, from + |gap| + |expected|)
  }

  function Early(expected: Text): nat {
    if expected == [] then 1 else 0
  }

  predicate HarmlessPieces(p: Pieces, done: Text) {
    match p
    case Tail(_) => true
    case Piece(gap, expected, inserted, rest) =>
      (expected == [] ==> Repeats(done + gap, inserted)) && HarmlessPieces(rest, done + gap + inserted)
  }

  /** Fitting hunks cut the original into pieces. */
  lemma {:induction false} Cut(orig: Text, edits: seq<Edit>, from: nat, done: Text) returns (p: Pieces)
    requires Fits(orig, edits, from)
    ensures Changes(p, from) == edits
    ensures OldText(p) == orig[from..] && NewText(p) == Replaced(orig, edits, from)
    ensures HarmlessPieces(p, done) <==> Harmless(orig, edits, from, done)
    decreases |edits|
  {
    if edits == [] {
      p := Tail(orig[from..]);
    } else {
      var e := edits[0];
      var rest := Cut(orig, edits[1..], e.start + |e.expected|, done + orig[from..e.start] + e.inserted);
      p := Piece(orig[from..e.start], e.expected, e.inserted, rest);
      SplitOriginal(orig, from, e.start, e.expected);
      assert edits == [e] + edits[1..];
    }
  }

  lemma SplitOriginal(orig: Text, from: nat, start: int, expected: Text)
    requires from <= start && MatchesAt(orig, expected, start)
    ensures orig[from..start] + (expected + orig[start + |expected|..]) == orig[from..]
  {
    assert expected == orig[start..start + |expected|];
  }

  /** Cut texts come from fitting hunks. */
  lemma {:induction false} CutFits(orig: Text, p: Pieces, from: nat)
    requires from <= |orig| && OldText(p) == orig[from..]
    ensures Fits(orig, Changes(p, from), from) && Replaced(orig, Changes(p, from), from) == NewText(p)
  {
    match p
    case Tail(_) =>
    case Piece(gap, expected, inserted, rest) =>
      var start := from + |gap|;
      SuffixParts(orig, from, gap, expected, OldText(rest));
      CutFits(orig, rest, start + |expected|);
      var edits := Changes(p, from);
      assert edits[1..] == Changes(rest, start + |expected|);
  }

  lemma SuffixParts(orig: Text, from: nat, gap: Text, expected: Text, rest: Text)
    requires from <= |orig| && orig[from..] == gap + (expected + rest)
    ensures var start := from + |gap|;
            && start + |expected| <= |orig| && orig[from..start] == gap
            && MatchesAt(orig, expected, start) && orig[start + |expected|..] == rest
  {
    var start := from + |gap|;
    assert |orig| == from + |gap| + |expected| + |rest|;
    assert orig[from..start] == orig[from..][..|gap|];
    assert orig[start..start + |expected|] == orig[from..][|gap|..|gap| + |expected|];
    assert orig[start + |expected|..] == orig[from..][|gap| + |expected|..];
  }

  lemma ExpectedPlace(h: Hunk)
    requires h.oldCount == |OldSide(h.lines)|
    ensures var e := PlacedEdit(h); EditOf(h) == Edit(e.start - Early(e.expected), e.expected, e.inserted)
  {
  }

  /** With right headers the applier expects a hunk where the format puts it, or one line early. */
  lemma {:induction false} ExpectedPlaces(hunks: seq<Hunk>, p: Pieces, from: nat, shift: int)
    requires Placed(hunks) == Changes(p, from) && HeadersRight(hunks, shift)
    ensures EditsOf(hunks) == Expected(p, from)
    decreases |hunks|
  {
    if hunks != [] {
      var h, rest, next := hunks[0], hunks[1..], from + |p.gap| + |p.expected|;
      ExpectedPlace(h);
      Uncons(PlacedEdit(h), Placed(rest), Edit(from + |p.gap|, p.expected, p.inserted), Changes(p.rest, next));
      ExpectedPlaces(rest, p.rest, next, shift + EditOf(h).Growth());
      assert EditsOf(hunks) == [EditOf(h)] + EditsOf(rest);
      assert Expected(p, from) == [EditOf(h)] + Expected(p.rest, next);
    }
  }

  lemma Uncons(a: Edit, s: seq<Edit>, b: Edit, t: seq<Edit>)
    requires [a] + s == [b] + t
    ensures a == b && s == t
  {
    assert ([a] + s)[0] == a && ([a] + s)[1..] == s && ([b] + t)[1..] == t;
  }

  // ---------------------------------------------------------------- what the loop does to the pieces

  /** Inserts before the last line. */
  function InsertEarly(front: Text, inserted: Text): Text {
    if front == [] then inserted else front[..|front| - 1] + inserted + [front[|front| - 1]]
  }

  /** The rewritten front after one more hunk. */
  function Effect(front: Text, expected: Text, inserted: Text): Text {
    if expected == [] then InsertEarly(front, inserted) else front + inserted
  }

  function Applied(p: Pieces, done: Text): Text {
    match p
    case Tail(text) => done + text
    case Piece(gap, expected, inserted, rest) => Applied(rest, Effect(done + gap, expected, inserted))
  }

  /** How the rule treats a hunk whose old lines stand exactly where the offset puts them. */
  ghost predicate ReplacesInPlace(apply: Rule) {
    forall before, e: Edit, after, offset {:trigger apply(before + (e.expected + after), e, offset)} ::
      e.start + offset == |before| - Early(e.expected) ==>
        apply(before + (e.expected + after), e, offset) == Effect(before, e.expected, e.inserted) + after
  }

  lemma ApplyInMiddle(before: Text, e: Edit, after: Text, offset: int)
    requires e.expected != [] && e.start + offset == |before|
    ensures ApplyOne(before + (e.expected + after), e, offset) == (before + e.inserted) + after
  {
    var lines := before + (e.expected + after);
    assert lines[|before|..|before| + |e.expected|] == e.expected;
    assert MatchesAt(lines, e.expected, |before|);
    assert lines[..|before|] == before && lines[|before| + |e.expected|..] == after;
  }

  /** An empty old side matches anywhere, so it is found at the early place, or at the top if there is none. */
  lemma ApplyEarly(before: Text, e: Edit, after: Text, offset: int)
    requires e.expected == [] && e.start + offset == |before| - 1
    ensures ApplyOne(before + ([] + after), e, offset) == InsertEarly(before, e.inserted) + after
  {
    var lines := before + ([] + after);
    assert lines == before + after;
    if before == [] {
      assert !MatchesAt(lines, [], -1) && !MatchesAt(lines, [], -2) && MatchesAt(lines, [], 0);
      assert Place(lines, [], -1) == Scan(lines, [], -1, DRIFT) == 0;
      assert lines[..0] + e.inserted + lines[0..] == e.inserted + after;
    } else {
      var n := |before| - 1;
      assert MatchesAt(lines, [], n);
      assert lines[..n] == before[..n] && lines[n..] == [before[n]] + after;
    }
  }

  lemma ApplyOneReplaces()
    ensures ReplacesInPlace(ApplyOne)
  {
    forall before, e: Edit, after, offset | e.start + offset == |before| - Early(e.expected)
      ensures ApplyOne(before + (e.expected + after), e, offset) == Effect(before, e.expected, e.inserted) + after
    {
      if e.expected == [] {
        ApplyEarly(before, e, after, offset);
      } else {
        ApplyInMiddle(before, e, after, offset);
      }
    }
  }

  /** With the part in front already rewritten to `done`, the loop rewrites the rest. */
  lemma {:induction false} PiecesApplied(apply: Rule, p: Pieces, from: nat, done: Text, lines: Text, offset: int)
    requires ReplacesInPlace(apply)
    requires lines == done + OldText(p) && offset == |done| - from
    ensures ApplyWith(apply, lines, Expected(p, from), offset) == Applied(p, done)
    decreases p
  {
    match p
    case Tail(_) =>
    case Piece(gap, expected, inserted, rest) =>
      var e, next := Edit(from + |gap| - Early(expected), expected, inserted), from + |gap| + |expected|;
      var done' := Effect(done + gap, expected, inserted);
      assert lines == (done + gap) + (expected + OldText(rest));
      assert apply((done + gap) + (e.expected + OldText(rest)), e, offset) == done' + OldText(rest);
      PiecesApplied(apply, rest, next, done', done' + OldText(rest), offset + e.Growth());
      assert Expected(p, from)[1..] == Expected(rest, next);
  }

  /** An early insertion comes out right exactly on a right front whose last line is all that it inserts. */
  lemma InsertEarlyExactly(a: Text, b: Text, inserted: Text)
    requires |a| == |b|
    ensures InsertEarly(a, inserted) == b + inserted <==> a == b && Repeats(b, inserted)
  {
    if a != [] {
      if a == b && Repeats(b, inserted) {
        RepeatsInsertsRight(b, inserted);
      }
      if InsertEarly(a, inserted) == b + inserted {
        InsertedRight(a, b, inserted);
      }
    }
  }

  lemma RepeatsInsertsRight(b: Text, inserted: Text)
    requires b != [] && Repeats(b, inserted)
    ensures InsertEarly(b, inserted) == b + inserted
  {
    var early, right, n := InsertEarly(b, inserted), b + inserted, |b| - 1;
    forall i | 0 <= i < |early| ensures early[i] == right[i] {
      if n <= i < n + |inserted| { assert inserted[i - n] in inserted; }
      if n < i { assert inserted[i - n - 1] in inserted; }
    }
  }

  lemma InsertedRight(a: Text, b: Text, inserted: Text)
    requires |a| == |b| > 0 && InsertEarly(a, inserted) == b + inserted
    ensures a == b && Repeats(b, inserted)
  {
    var n, early, right := |a| - 1, InsertEarly(a, inserted), b + inserted;
    assert a[..n] == early[..n] == right[..n] == b[..n];
    EarlyRepeats(early, right, n, b[n], a[n], inserted);
    assert a == a[..n] + [a[n]] && b == b[..n] + [b[n]];
  }

  /** From the `n`-th line on both sides agree, so every line there is the one at `n`. */
  lemma EarlyRepeats(early: Text, right: Text, n: nat, first: Line, last: Line, inserted: Text)
    requires early == right && |early| == n + |inserted| + 1
    requires early[n..] == inserted + [last] && right[n..] == [first] + inserted
    ensures first == last && forall l | l in inserted :: l == first
  {
    var s := inserted + [last];
    assert s == [first] + inserted;
    forall i | 0 < i < |s| ensures s[i] == s[i - 1] {
      assert s[i] == inserted[i - 1];
    }
    AllTheSame(s);
    assert s[|inserted|] == last && s[0] == first;
    forall l | l in inserted ensures l == first {
      var i :| 0 <= i < |inserted| && inserted[i] == l;
      assert s[i] == l;
    }
  }

  lemma {:induction false} AllTheSame(s: Text)
    requires s != [] && forall i | 0 < i < |s| :: s[i] == s[i - 1]
    ensures forall i | 0 <= i < |s| :: s[i] == s[0]
    decreases |s|
  {
    if |s| > 1 {
      var t := s[..|s| - 1];
      AllTheSame(t);
      assert s[|s| - 1] == s[|s| - 2] == t[|t| - 1];
    }
  }

  /** Once the rewritten front has gone wrong it stays wrong, so the result is right only if no hunk did harm. */
  lemma {:induction false} AppliedExactly(p: Pieces, a: Text, b: Text)
    requires |a| == |b|
    ensures Applied(p, a) == b + NewText(p) <==> a == b && HarmlessPieces(p, b)
    decreases p
  {
    match p
    case Tail(text) =>
      SameFront(a, b, text);
    case Piece(gap, expected, inserted, rest) =>
      SameFront(a, b, gap);
      var a', b' := Effect(a + gap, expected, inserted), b + gap + inserted;
      AppliedExactly(rest, a', b');
      assert b + NewText(p) == b' + NewText(rest);
      if expected == [] {
        InsertEarlyExactly(a + gap, b + gap, inserted);
      } else {
        SameFront(a + gap, b + gap, inserted);
      }
  }

  lemma SameFront(a: Text, b: Text, text: Text)
    requires |a| == |b|
    ensures a + text == b + text <==> a == b
  {
    if a + text == b + text {
      assert a == (a + text)[..|a|] == (b + text)[..|b|] == b;
    }
  }

  // ---------------------------------------------------------------- simultaneous replacement

  /**
   * The applier replaces all hunks of a diff at once, whatever their number and sizes, if and only if
   * every hunk without an old side repeats the line before it or stands at the top.
   */
  lemma ApplyIsReplacement(orig: Text, hunks: seq<Hunk>)
    requires IsDiff(orig, hunks)
    ensures ApplyEdits(orig, EditsOf(hunks)) == Patched(orig, hunks) <==> Harmless(orig, Placed(hunks), 0, [])
  {
    var p := Cut(orig, Placed(hunks), 0, []);
    assert orig[0..] == orig == [] + OldText(p) && [] + NewText(p) == NewText(p);
    ApplyOneReplaces();
    ExpectedPlaces(hunks, p, 0, 0);
    PiecesApplied(ApplyOne, p, 0, [], orig, 0);
    AppliedExactly(p, [], []);
  }

  /** In particular when every hunk has an old side, as hunks with lines of context do. */
  lemma {:induction false} OldSidesAreHarmless(orig: Text, edits: seq<Edit>, from: nat, done: Text)
    requires Fits(orig, edits, from) && forall e | e in edits :: e.expected != []
    ensures Harmless(orig, edits, from, done)
    decreases |edits|
  {
    if edits != [] {
      var e := edits[0];
      OldSidesAreHarmless(orig, edits[1..], e.start + |e.expected|, done + orig[from..e.start] + e.inserted);
    }
  }

  // ---------------------------------------------------------------- reversing a diff

  function FlipLine(l: HunkLine): HunkLine {
    match l case Context(t) => Context(t) case Deleted(t) => Inserted(t) case Inserted(t) => Deleted(t)
  }

  function Flip(ls: seq<HunkLine>): seq<HunkLine> {
    seq(|ls|, i requires 0 <= i < |ls| => FlipLine(ls[i]))
  }

  lemma {:induction false} FlipSides(ls: seq<HunkLine>)
    ensures OldSide(Flip(ls)) == NewSide(ls) && NewSide(Flip(ls)) == OldSide(ls)
    decreases |ls|
  {
    if ls != [] {
      FlipSides(ls[..|ls| - 1]);
      assert Flip(ls)[..|ls| - 1] == Flip(ls[..|ls| - 1]);
    }
  }

  /** Swaps the two ranges of the header and turns deletions into insertions. */
  function ReversedHunk(h: Hunk): Hunk {
    Hunk(h.newStart, h.newCount, h.oldStart, h.oldCount, Flip(h.lines))
  }

  function Reversed(hunks: seq<Hunk>): seq<Hunk> {
    if hunks == [] then [] else [ReversedHunk(hunks[0])] + Reversed(hunks[1..])
  }

  function Swap(p: Pieces): Pieces {
    match p
    case Tail(text) => Tail(text)
    case Piece(gap, expected, inserted, rest) => Piece(gap, inserted, expected, Swap(rest))
  }

  lemma {:induction false} SwapTexts(p: Pieces)
    ensures OldText(Swap(p)) == NewText(p) && NewText(Swap(p)) == OldText(p)
  {
    if p.Piece? {
      SwapTexts(p.rest);
    }
  }

  lemma ReversedPlace(h: Hunk, shift: int)
    requires Stands(h.newStart, h.newCount) == Stands(h.oldStart, h.oldCount) + shift
    ensures var e := PlacedEdit(h); PlacedEdit(ReversedHunk(h)) == Edit(e.start + shift, e.inserted, e.expected)
    ensures EditOf(ReversedHunk(h)).Growth() == -EditOf(h).Growth()
  {
    FlipSides(h.lines);
  }

  lemma {:induction false} ReversedHeaders(hunks: seq<Hunk>, shift: int)
    requires HeadersRight(hunks, shift)
    ensures HeadersRight(Reversed(hunks), -shift)
    decreases |hunks|
  {
    if hunks != [] {
      var h := hunks[0];
      ReversedHeaders(hunks[1..], shift + EditOf(h).Growth());
      ReversedPlace(h, shift);
      FlipSides(h.lines);
      assert Reversed(hunks)[1..] == Reversed(hunks[1..]);
    }
  }

  /** The reversed hunks are the hunks of the pieces with the two sides exchanged. */
  lemma {:induction false} ReversedIsSwap(hunks: seq<Hunk>, p: Pieces, from: nat, shift: int)
    requires Placed(hunks) == Changes(p, from) && HeadersRight(hunks, shift) && from + shift >= 0
    ensures Placed(Reversed(hunks)) == Changes(Swap(p), from + shift)
    decreases |hunks|
  {
    if hunks != [] {
      var h, rest := hunks[0], hunks[1..];
      var from', shift' := from + |p.gap| + |p.expected|, shift + EditOf(h).Growth();
      Uncons(PlacedEdit(h), Placed(rest), Edit(from + |p.gap|, p.expected, p.inserted), Changes(p.rest, from'));
      ReversedIsSwap(rest, p.rest, from', shift');
      ReversedPlace(h, shift);
      PlacedCons(ReversedHunk(h), Reversed(rest));
    }
  }

  lemma PlacedCons(h: Hunk, rest: seq<Hunk>)
    ensures Placed([h] + rest) == [PlacedEdit(h)] + Placed(rest)
  {
    assert ([h] + rest)[1..] == rest;
  }

  lemma SwapFits(p: Pieces)
    ensures Fits(NewText(p), Changes(Swap(p), 0), 0)
    ensures Replaced(NewText(p), Changes(Swap(p), 0), 0) == OldText(p)
  {
    SwapTexts(p);
    assert NewText(p)[0..] == NewText(p);
    CutFits(NewText(p), Swap(p), 0);
  }

  /** The reverse of a diff is a diff of the result, and it stands for going back to the original. */
  lemma ReverseFits(orig: Text, hunks: seq<Hunk>)
    requires IsDiff(orig, hunks)
    ensures IsDiff(Patched(orig, hunks), Reversed(hunks))
    ensures Patched(Patched(orig, hunks), Reversed(hunks)) == orig
  {
    var p := Cut(orig, Placed(hunks), 0, []);
    ReversedIsSwap(hunks, p, 0, 0);
    ReversedHeaders(hunks, 0);
    SwapFits(p);
    assert orig[0..] == orig;
  }

  /** On the result, the applier goes back to the original if and only if the reverse is harmless there. */
  lemma ReverseRestoresExactlyWhen(orig: Text, hunks: seq<Hunk>)
    requires IsDiff(orig, hunks)
    ensures IsDiff(Patched(orig, hunks), Reversed(hunks))
    ensures ApplyEdits(Patched(orig, hunks), EditsOf(Reversed(hunks))) == orig
       <==> Harmless(Patched(orig, hunks), Placed(Reversed(hunks)), 0, [])
  {
    ReverseFits(orig, hunks);
    ApplyIsReplacement(Patched(orig, hunks), Reversed(hunks));
  }

  /** When both sides of every hunk have lines, applying a diff and then its reverse restores the original. */
  lemma ReverseRestores(orig: Text, hunks: seq<Hunk>)
    requires IsDiff(orig, hunks) && forall h | h in hunks :: h.oldCount > 0 && h.newCount > 0
    ensures ApplyEdits(orig, EditsOf(hunks)) == Patched(orig, hunks)
    ensures ApplyEdits(ApplyEdits(orig, EditsOf(hunks)), EditsOf(Reversed(hunks))) == orig
  {
    CountsAreSides(hunks, 0);
    OldSidesAreHarmless(orig, Placed(hunks), 0, []);
    ApplyIsReplacement(orig, hunks);
    ReverseRestoresExactlyWhen(orig, hunks);
    OldSidesAreHarmless(Patched(orig, hunks), Placed(Reversed(hunks)), 0, []);
  }

  lemma {:induction false} CountsAreSides(hunks: seq<Hunk>, shift: int)
    requires HeadersRight(hunks, shift) && forall h | h in hunks :: h.oldCount > 0 && h.newCount > 0
    ensures forall e | e in Placed(hunks) + Placed(Reversed(hunks)) :: e.expected != []
    decreases |hunks|
  {
    if hunks != [] {
      CountsAreSides(hunks[1..], shift + EditOf(hunks[0]).Growth());
      FlipSides(hunks[0].lines);
      PlacedCons(ReversedHunk(hunks[0]), Reversed(hunks[1..]));
    }
  }

  /**
   * The smallest case that goes wrong: a line inserted after the first of two lines goes in before it, and
   * so does the line that the reverse of a deletion puts back.
   */
  lemma InsertionGoesInEarly()
    ensures var orig, hunks := ["a", "b"], [Hunk(1, 0, 2, 1, [Inserted("x")])];
            && IsDiff(orig, hunks) && Patched(orig, hunks) == ["a", "x", "b"]
            && ApplyEdits(orig, EditsOf(hunks)) == ["x", "a", "b"]
            && Reversed([Hunk(2, 1, 1, 0, [Deleted("x")])]) == hunks
  {
    var orig, h := ["a", "b"], Hunk(1, 0, 2, 1, [Inserted("x")]);
    assert OldSide(h.lines) == [] && NewSide(h.lines) == ["x"];
    assert [h][1..] == [];
    assert PlacedEdit(h) == Edit(1, [], ["x"]) && EditOf(h) == Edit(0, [], ["x"]);
    assert Placed([h]) == [PlacedEdit(h)] && EditsOf([h]) == [EditOf(h)];
    ApplyEarly(["a"], EditOf(h), ["b"], 0);
    assert ["a"] + ([] + ["b"]) == orig;
    assert InsertEarly(["a"], ["x"]) == ["x", "a"];
    assert [EditOf(h)][1..] == [];
    assert ApplyWith(ApplyOne, orig, [EditOf(h)], 0) == ApplyOne(orig, EditOf(h), 0);
    assert Flip([Deleted("x")]) == [Inserted("x")];
    var back := Hunk(2, 1, 1, 0, [Deleted("x")]);
    assert Reversed([back]) == [ReversedHunk(back)] + Reversed([back][1..]) == [h];
  }
}
