/**
 * What `HytaleWikiVisitor` computes, as functions: the lowering of a parsed wiki page to a
 * tree of labels and groups. Every label and group receives a numbered id drawn from one
 * counter; each function takes the counter's value before the visit and returns it after.
 */
module Lowering {
  import opened Wrappers
  import opened Strings

  /** The parsed page. `Generic` stands for category links, wiki links and lists, whose visits fall back to `visitChildren`. */
  datatype Node =
    | Text(content: string)
    | Bold(children: seq<Node>)
    | LineBreak
    | Section(title: Option<string>, children: seq<Node>)
    | XMLContainer(children: seq<Node>)
    | XMLStandalone
    | Generic(children: seq<Node>)

  datatype IdKind = TextId | TitleId | LineBreakId | SectionId | ParentId

  /** An element id: a kind and a number drawn from the counter. */
  datatype Id = Id(kind: IdKind, n: nat)

  function KindPrefix(k: IdKind): string {
    match k
    case TextId => "text-"
    case TitleId => "title-"
    case LineBreakId => "line-break-"
    case SectionId => "section-"
    case ParentId => "parent-"
  }

  /** The id as the UI sees it, e.g. `text-12`. */
  function IdString(id: Id): string {
    KindPrefix(id.kind) + NatToString(id.n)
  }

  /** The render tree: a label with its text, or a group with its children. */
  datatype Render = Label(id: Id, text: string) | Group(id: Id, children: seq<Render>)

  /** The test `composeChildren` applies: a label counts as text unless its id starts with `line-break`. */
  predicate IsContent(r: Render) {
    r.Group? || !StartsWith(IdString(r.id), "line-break")
  }

  /** `buildLabel`: runs of spaces collapsed, id `text-n`. */
  function TextLabel(content: string, n: nat): Render {
    Label(Id(TextId, n), CollapseSpaces(content))
  }

  /** The text of a bold node: its direct `Text` children joined without separator; other children are skipped. */
  function BoldText(children: seq<Node>): string {
    if children == [] then []
    else (if children[0].Text? then children[0].content else []) + BoldText(children[1..])
  }

  /** The labels' texts joined without separator, as `reduce((a, b) -> a + b)` does. */
  function Concat(texts: seq<string>): string {
    if texts == [] then [] else Concat(texts[..|texts| - 1]) + texts[|texts| - 1]
  }

  /**
   * The state of the `composeChildren` loop: the children already added to the group, the
   * texts of the labels waiting to be merged, the `anyNonEmptyText` flag and the counter.
   * `seen` records the present results of the children visited so far, in order.
   */
  datatype Fold = Fold(appended: seq<Render>, pending: seq<string>, anyText: bool, next: nat, seen: seq<Render>)

  function Start(next: nat): Fold {
    Fold([], [], false, next, [])
  }

  /** Merge the waiting labels into one new `text-` label, if there are any. */
  function Flush(f: Fold): (g: Fold)
    ensures g.next >= f.next
  {
    if f.pending == [] then f
    else f.(appended := f.appended + [TextLabel(Concat(f.pending), f.next)], pending := [], next := f.next + 1)
  }

  /** One iteration of the loop, given the child's result and the counter after its visit. */
  function Step(f: Fold, r: Option<Render>, next: nat): (g: Fold)
    requires next >= f.next
    ensures g.next >= next
  {
    match r
    case None => f.(next := next)
    case Some(lbl: Render) =>
      if lbl.Label? then
        f.(pending := f.pending + [lbl.text], anyText := f.anyText || IsContent(lbl), next := next, seen := f.seen + [lbl])
      else
        var flushed := Flush(f.(next := next));
        flushed.(appended := flushed.appended + [lbl], anyText := true, seen := f.seen + [lbl])
  }

  /** Visit one node, starting with counter value `next`; the result and the counter after the visit. */
  function Lower(node: Node, next: nat): (res: (Option<Render>, nat))
    ensures res.1 >= next
    decreases node, 0, 0
  {
    match node
    case Text(content) =>
      if content == [] then (None, next) else (Some(TextLabel(content, next)), next + 1)
    case Bold(children) =>
      var content := BoldText(children);
      if Trim(content) == [] then (None, next) else (Some(TextLabel(content, next)), next + 1)
    case LineBreak => (Some(Label(Id(LineBreakId, next), "\n")), next + 1)
    case Section(title, children) =>
      if title.Some? then
        var titleLabel := Label(Id(TitleId, next + 1), CollapseSpaces(title.value));
        Compose(Id(SectionId, next + 2), [titleLabel], children, next + 3)
      else
        Compose(Id(SectionId, next), [], children, next + 1)
    case XMLContainer(_) => (None, next)
    case XMLStandalone => (None, next)
    case Generic(children) => Compose(Id(ParentId, next), [], children, next + 1)
  }

  /** The loop state after the first `i` children. */
  function ComposeState(children: seq<Node>, i: nat, next: nat): (f: Fold)
    requires i <= |children|
    ensures f.next >= next
    decreases children, i, 0
  {
    if i == 0 then Start(next)
    else
      var f := ComposeState(children, i - 1, next);
      var res := Lower(children[i - 1], f.next);
      Step(f, res.0, res.1)
  }

  /** `composeChildren`: `initial` holds what the group already has (a section's title label). */
  function Compose(groupId: Id, initial: seq<Render>, children: seq<Node>, next: nat): (res: (Option<Render>, nat))
    ensures res.1 >= next
    decreases children, |children| + 1, 0
  {
    if |children| == 1 then Lower(children[0], next)
    else
      var f := Flush(ComposeState(children, |children|, next));
      if !f.anyText then (None, f.next) else (Some(Group(groupId, initial + f.appended)), f.next)
  }

  // ---------------------------------------------------------------------------------------
  // The `line-break` test

  /** The prefix test in `composeChildren` singles out exactly the line-break labels. */
  lemma LineBreakIdIff(id: Id)
    ensures StartsWith(IdString(id), "line-break") <==> id.kind == LineBreakId
  {
    var s := IdString(id);
    if id.kind == LineBreakId {
      assert s[..10] == "line-break";
    } else {
      OccursAtHead(s, "line-break", 0);
      assert s[0] == KindPrefix(id.kind)[0];
    }
  }

  // ---------------------------------------------------------------------------------------
  // What the loop of `composeChildren` keeps

  predicate NoAdjacentLabels(rs: seq<Render>) {
    forall i :: 0 <= i < |rs| - 1 ==> !(rs[i].Label? && rs[i + 1].Label?)
  }

  /** The groups among `rs`, in order. */
  function Groups(rs: seq<Render>): (gs: seq<Render>)
    ensures |gs| <= |rs|
  {
    if rs == [] then []
    else Groups(rs[..|rs| - 1]) + (if rs[|rs| - 1].Group? then [rs[|rs| - 1]] else [])
  }

  /** The texts of the labels that follow the last group of `rs`. */
  function TrailingLabelTexts(rs: seq<Render>): seq<string> {
    if rs == [] || rs[|rs| - 1].Group? then []
    else TrailingLabelTexts(rs[..|rs| - 1]) + [rs[|rs| - 1].text]
  }

  predicate HasContent(rs: seq<Render>) {
    exists i :: 0 <= i < |rs| && IsContent(rs[i])
  }

  lemma HasContentSnoc(rs: seq<Render>, r: Render)
    ensures HasContent(rs + [r]) <==> HasContent(rs) || IsContent(r)
  {
    if HasContent(rs) {
      var i :| 0 <= i < |rs| && IsContent(rs[i]);
      assert (rs + [r])[i] == rs[i];
    }
    if HasContent(rs + [r]) && !IsContent(r) {
      var i :| 0 <= i < |rs + [r]| && IsContent((rs + [r])[i]);
      assert i < |rs| && (rs + [r])[i] == rs[i];
    }
    if IsContent(r) {
      assert (rs + [r])[|rs|] == r;
    }
  }

  /** A child of a group with a label's id set aside: the label's text, or the whole group. */
  datatype Shape = TextShape(text: string) | GroupShape(group: Render)

  function ShapeOf(r: Render): Shape {
    if r.Label? then TextShape(r.text) else GroupShape(r)
  }

  function Shapes(rs: seq<Render>): seq<Shape> {
    seq(|rs|, i requires 0 <= i < |rs| => ShapeOf(rs[i]))
  }

  /** One merged label for a run of label texts, as `buildLabel` writes it: joined, then spaces collapsed; nothing for no run. */
  function RunText(texts: seq<string>): seq<Shape> {
    if texts == [] then [] else [TextShape(CollapseSpaces(Concat(texts)))]
  }

  /** `rs` up to its last group, with each maximal run of labels before a group merged into one text. */
  function ClosedRuns(rs: seq<Render>): seq<Shape> {
    if rs == [] then []
    else if rs[|rs| - 1].Group? then
      var init := rs[..|rs| - 1];
      ClosedRuns(init) + RunText(TrailingLabelTexts(init)) + [GroupShape(rs[|rs| - 1])]
    else ClosedRuns(rs[..|rs| - 1])
  }

  /** `rs` with every maximal run of labels merged into one text and the groups kept in place. */
  function Runs(rs: seq<Render>): seq<Shape> {
    ClosedRuns(rs) + RunText(TrailingLabelTexts(rs))
  }

  /** Merging runs leaves something of every non-empty sequence. */
  lemma RunsNonEmpty(rs: seq<Render>)
    requires rs != []
    ensures Runs(rs) != []
  {
    if rs[|rs| - 1].Label? {
      assert TrailingLabelTexts(rs) != [];
    }
  }

  lemma ShapesSnoc(rs: seq<Render>, r: Render)
    ensures Shapes(rs + [r]) == Shapes(rs) + [ShapeOf(r)]
  {
  }

  /** The final merge adds the run's merged text to what the group holds. */
  lemma FlushShapes(f: Fold)
    ensures Shapes(Flush(f).appended) == Shapes(f.appended) + RunText(f.pending)
  {
    if f.pending != [] {
      ShapesSnoc(f.appended, TextLabel(Concat(f.pending), f.next));
    }
  }

  /**
   * What holds of the loop state after any number of iterations: the group gets no two
   * labels in a row and, unless it is still empty, ends with a group; the groups arrive in
   * the order the children produced them; every label it gets is a merged `text-` label; the
   * waiting texts are those of the labels produced since the last group; the flag is set
   * exactly when some child produced a group or a label that is not a line break; and the
   * group holds, ids aside, the children's results up to the last group with each run of
   * labels merged into one text.
   */
  predicate FoldInv(f: Fold) {
    && ClosedShape(f.appended)
    && Groups(f.appended) == Groups(f.seen)
    && f.pending == TrailingLabelTexts(f.seen)
    && (f.anyText <==> HasContent(f.seen))
    && Shapes(f.appended) == ClosedRuns(f.seen)
  }

  /** No two labels in a row, only merged labels, and a group last unless empty. */
  predicate ClosedShape(rs: seq<Render>) {
    && NoAdjacentLabels(rs)
    && (rs == [] || rs[|rs| - 1].Group?)
    && MergedLabelsOnly(rs)
  }

  /** Every label among `rs` is a merged `text-` label. */
  predicate MergedLabelsOnly(rs: seq<Render>) {
    forall k :: 0 <= k < |rs| && rs[k].Label? ==> rs[k].id.kind == TextId
  }

  /** How the groups and the trailing label texts of a sequence grow by one element. */
  lemma SeenSnoc(rs: seq<Render>, r: Render)
    ensures Groups(rs + [r]) == Groups(rs) + (if r.Group? then [r] else [])
    ensures TrailingLabelTexts(rs + [r]) == if r.Group? then [] else TrailingLabelTexts(rs) + [r.text]
    ensures HasContent(rs + [r]) <==> HasContent(rs) || IsContent(r)
    ensures ClosedRuns(rs + [r]) == if r.Group? then ClosedRuns(rs) + RunText(TrailingLabelTexts(rs)) + [GroupShape(r)] else ClosedRuns(rs)
  {
    assert (rs + [r])[..|rs|] == rs;
    HasContentSnoc(rs, r);
  }

  /** A group appended after anything keeps the shape and ends the sequence with a group. */
  lemma SnocGroup(rs: seq<Render>, r: Render)
    requires r.Group? && NoAdjacentLabels(rs) && MergedLabelsOnly(rs)
    ensures NoAdjacentLabels(rs + [r]) && MergedLabelsOnly(rs + [r])
    ensures Groups(rs + [r]) == Groups(rs) + [r]
    ensures (rs + [r])[|rs + [r]| - 1].Group?
  {
    SeenSnoc(rs, r);
    var t := rs + [r];
    forall i | 0 <= i < |t| - 1
      ensures !(t[i].Label? && t[i + 1].Label?)
    {
      if i + 1 < |rs| {
        assert t[i] == rs[i] && t[i + 1] == rs[i + 1];
      } else {
        assert t[i + 1] == r;
      }
    }
    forall k | 0 <= k < |t| && t[k].Label?
      ensures t[k].id.kind == TextId
    {
      assert k < |rs| && t[k] == rs[k];
    }
  }

  /** A `text-` label appended after a group (or to nothing) keeps the shape and the groups. */
  lemma SnocMergedLabel(rs: seq<Render>, l: Render)
    requires l.Label? && l.id.kind == TextId && NoAdjacentLabels(rs) && MergedLabelsOnly(rs)
    requires rs == [] || rs[|rs| - 1].Group?
    ensures NoAdjacentLabels(rs + [l]) && MergedLabelsOnly(rs + [l])
    ensures Groups(rs + [l]) == Groups(rs)
  {
    SeenSnoc(rs, l);
    var t := rs + [l];
    assert t[|rs|] == l;
    forall i | 0 <= i < |t| - 1
      ensures !(t[i].Label? && t[i + 1].Label?)
    {
      assert t[i] == rs[i];
      if i + 1 < |rs| {
        assert t[i + 1] == rs[i + 1];
      } else {
        assert i == |rs| - 1 && rs[i].Group?;
      }
    }
    forall k | 0 <= k < |t| && t[k].Label?
      ensures t[k].id.kind == TextId
    {
      if k < |rs| {
        assert t[k] == rs[k];
      }
    }
  }

  lemma StepLabelInv(f: Fold, r: Render, next: nat)
    requires next >= f.next && r.Label? && FoldInv(f)
    ensures FoldInv(Step(f, Some(r), next))
  {
    LabelSnoc(f.seen, r);
    assert Step(f, Some(r), next) == Fold(f.appended, f.pending + [r.text], f.anyText || IsContent(r), next, f.seen + [r]);
  }

  /** What a label appended to the children's results changes in them. */
  lemma LabelSnoc(rs: seq<Render>, r: Render)
    requires r.Label?
    ensures Groups(rs + [r]) == Groups(rs)
    ensures TrailingLabelTexts(rs + [r]) == TrailingLabelTexts(rs) + [r.text]
    ensures HasContent(rs + [r]) <==> HasContent(rs) || IsContent(r)
    ensures ClosedRuns(rs + [r]) == ClosedRuns(rs)
  {
    SeenSnoc(rs, r);
  }

  /** Appending a merged label to a state that ends with a group (or is empty) keeps the shape. */
  lemma FlushInv(f: Fold)
    requires ClosedShape(f.appended)
    ensures var h := Flush(f);
      && NoAdjacentLabels(h.appended)
      && Groups(h.appended) == Groups(f.appended)
      && MergedLabelsOnly(h.appended)
  {
    if f.pending != [] {
      var l := TextLabel(Concat(f.pending), f.next);
      SnocMergedLabel(f.appended, l);
      assert Flush(f).appended == f.appended + [l];
    }
  }

  lemma StepGroupInv(f: Fold, r: Render, next: nat)
    requires next >= f.next && r.Group? && FoldInv(f)
    ensures FoldInv(Step(f, Some(r), next))
  {
    var h := Flush(f.(next := next));
    FlushInv(f.(next := next));
    SnocGroup(h.appended, r);
    SeenSnoc(f.seen, r);
    FlushShapes(f.(next := next));
    ShapesSnoc(h.appended, r);
    var g := Step(f, Some(r), next);
    assert g == Fold(h.appended + [r], [], true, h.next, f.seen + [r]);
  }

  lemma StepInv(f: Fold, r: Option<Render>, next: nat)
    requires next >= f.next && FoldInv(f)
    ensures FoldInv(Step(f, r, next))
  {
    if r.Some? {
      if r.value.Label? {
        StepLabelInv(f, r.value, next);
      } else {
        StepGroupInv(f, r.value, next);
      }
    }
  }

  lemma {:induction false} ComposeStateShape(children: seq<Node>, i: nat, next: nat)
    requires i <= |children|
    ensures FoldInv(ComposeState(children, i, next))
    decreases i
  {
    if i > 0 {
      ComposeStateShape(children, i - 1, next);
      var f := ComposeState(children, i - 1, next);
      var res := Lower(children[i - 1], f.next);
      StepInv(f, res.0, res.1);
    }
  }

  /**
   * `composeChildren` with other than exactly one child: the result is empty exactly when
   * no child produced a group or a label other than a line break. Otherwise it is the group
   * with its initial children followed by at least one more: the children's results with
   * every maximal run of labels merged into one label (texts joined, spaces collapsed) and
   * the groups kept in place, so that no two labels are adjacent and every label among them
   * is a newly made `text-` label.
   */
  lemma ComposeResult(groupId: Id, initial: seq<Render>, children: seq<Node>, next: nat)
    requires |children| != 1
    ensures var f := ComposeState(children, |children|, next);
      var res := Compose(groupId, initial, children, next);
      && (res.0.None? <==> !HasContent(f.seen))
      && (res.0.Some? ==>
            && res.0.value.Group? && res.0.value.id == groupId
            && |res.0.value.children| > |initial|
            && res.0.value.children[..|initial|] == initial
            && Shapes(res.0.value.children[|initial|..]) == Runs(f.seen)
            && NoAdjacentLabels(res.0.value.children[|initial|..])
            && MergedLabelsOnly(res.0.value.children[|initial|..])
            && Groups(res.0.value.children[|initial|..]) == Groups(f.seen))
  {
    ComposeStateShape(children, |children|, next);
    var f := ComposeState(children, |children|, next);
    var h := Flush(f);
    FlushInv(f);
    FlushShapes(f);
    assert (initial + h.appended)[..|initial|] == initial;
    assert (initial + h.appended)[|initial|..] == h.appended;
    if h.anyText {
      RunsNonEmpty(f.seen);
    }
  }

  /** A line break on its own never makes a group appear: children that are all line breaks give nothing. */
  lemma {:induction false} LineBreaksOnlySeen(children: seq<Node>, i: nat, next: nat)
    requires i <= |children|
    requires forall k :: 0 <= k < |children| ==> children[k] == LineBreak
    ensures !HasContent(ComposeState(children, i, next).seen)
    decreases i
  {
    if i > 0 {
      LineBreaksOnlySeen(children, i - 1, next);
      var f := ComposeState(children, i - 1, next);
      var r := Label(Id(LineBreakId, f.next), "\n");
      assert ComposeState(children, i, next).seen == f.seen + [r];
      LineBreakIdIff(r.id);
      HasContentSnoc(f.seen, r);
    }
  }

  lemma LineBreaksOnlyElided(groupId: Id, initial: seq<Render>, children: seq<Node>, next: nat)
    requires |children| != 1
    requires forall k :: 0 <= k < |children| ==> children[k] == LineBreak
    ensures Compose(groupId, initial, children, next).0.None?
  {
    LineBreaksOnlySeen(children, |children|, next);
    ComposeResult(groupId, initial, children, next);
  }

  // ---------------------------------------------------------------------------------------
  // Ids: every id a visit hands out is fresh

  /** The numbers of all ids in a render tree: the element's own, then its children's. */
  function IdNumbers(r: Render): seq<nat>
    decreases r, 1
  {
    match r
    case Label(id, _) => [id.n]
    case Group(id, children) => [id.n] + IdNumbersAll(children)
  }

  function IdNumbersAll(rs: seq<Render>): seq<nat>
    decreases rs, 0
  {
    if rs == [] then [] else IdNumbersAll(rs[..|rs| - 1]) + IdNumbers(rs[|rs| - 1])
  }

  predicate InRange(ns: seq<nat>, lo: nat, hi: nat) {
    forall i :: 0 <= i < |ns| ==> lo <= ns[i] < hi
  }

  predicate Distinct(ns: seq<nat>) {
    forall i, j :: 0 <= i < j < |ns| ==> ns[i] != ns[j]
  }

  lemma {:induction false} IdNumbersAllConcat(a: seq<Render>, b: seq<Render>)
    ensures IdNumbersAll(a + b) == IdNumbersAll(a) + IdNumbersAll(b)
    decreases |b|
  {
    if b == [] {
      assert a + b == a;
    } else {
      var c := a + b;
      var init := b[..|b| - 1];
      assert c[..|c| - 1] == a + init && c[|c| - 1] == b[|b| - 1];
      IdNumbersAllConcat(a, init);
      Regroup(IdNumbersAll(a), IdNumbersAll(init), IdNumbers(b[|b| - 1]));
    }
  }

  /** Two lists of distinct numbers drawn from disjoint ranges join into one. */
  lemma DistinctConcat(a: seq<nat>, b: seq<nat>, loA: nat, hiA: nat, loB: nat, hiB: nat, lo: nat, hi: nat)
    requires Distinct(a) && InRange(a, loA, hiA)
    requires Distinct(b) && InRange(b, loB, hiB)
    requires hiA <= loB || hiB <= loA
    requires lo <= loA && hiA <= hi && lo <= loB && hiB <= hi
    ensures Distinct(a + b) && InRange(a + b, lo, hi)
  {
    var c := a + b;
    forall i, j | 0 <= i < j < |c|
      ensures c[i] != c[j]
    {
      if j < |a| {
        assert c[i] == a[i] && c[j] == a[j];
      } else if i >= |a| {
        assert c[i] == b[i - |a|] && c[j] == b[j - |a|];
      } else {
        assert c[i] == a[i] && c[j] == b[j - |a|];
      }
    }
  }

  lemma InRangeWiden(ns: seq<nat>, lo: nat, hi: nat, lo': nat, hi': nat)
    requires InRange(ns, lo, hi) && lo' <= lo && hi <= hi'
    ensures InRange(ns, lo', hi')
  {
  }

  /** The ids added to the group so far are distinct and lie between the start and the current counter. */
  predicate FreshSince(f: Fold, next: nat) {
    InRange(IdNumbersAll(f.appended), next, f.next) && Distinct(IdNumbersAll(f.appended))
  }

  lemma FlushFresh(f: Fold, next: nat)
    requires FreshSince(f, next) && next <= f.next
    ensures FreshSince(Flush(f), next)
  {
    var h := Flush(f);
    if f.pending != [] {
      assert h.appended[..|h.appended| - 1] == f.appended;
      DistinctConcat(IdNumbersAll(f.appended), [f.next], next, f.next, f.next, f.next + 1, next, f.next + 1);
    }
  }

  /** The ids after a merged label numbered `after` and a group numbered from `[mid, after)`. */
  lemma LabelThenGroupFresh(A: seq<nat>, G: seq<nat>, next: nat, mid: nat, after: nat)
    requires Distinct(A) && InRange(A, next, mid)
    requires Distinct(G) && InRange(G, mid, after)
    requires next <= mid <= after
    ensures Distinct(A + [after] + G) && InRange(A + [after] + G, next, after + 1)
  {
    DistinctConcat([after], G, after, after + 1, mid, after, mid, after + 1);
    DistinctConcat(A, [after] + G, next, mid, mid, after + 1, next, after + 1);
    assert A + [after] + G == A + ([after] + G);
  }

  lemma IdNumbersAllSnoc2(rs: seq<Render>, a: Render, b: Render)
    ensures IdNumbersAll(rs + [a] + [b]) == IdNumbersAll(rs) + IdNumbers(a) + IdNumbers(b)
  {
    var xs := rs + [a] + [b];
    assert xs[..|xs| - 1] == rs + [a];
    assert (rs + [a])[..|rs|] == rs;
  }

  /** A child group's ids come from the counter values its visit consumed; the merged label's after them. */
  lemma StepGroupFresh(f: Fold, r: Render, after: nat, next: nat)
    requires FreshSince(f, next) && next <= f.next <= after && r.Group?
    requires InRange(IdNumbers(r), f.next, after) && Distinct(IdNumbers(r))
    ensures FreshSince(Step(f, Some(r), after), next)
  {
    var g := Step(f, Some(r), after);
    var A := IdNumbersAll(f.appended);
    var G := IdNumbers(r);
    if f.pending == [] {
      assert g.appended == f.appended + [r];
      assert g.appended[..|g.appended| - 1] == f.appended;
      assert IdNumbersAll(g.appended) == A + G;
      DistinctConcat(A, G, next, f.next, f.next, after, next, after);
    } else {
      var lbl := TextLabel(Concat(f.pending), after);
      assert g.appended == f.appended + [lbl] + [r];
      IdNumbersAllSnoc2(f.appended, lbl, r);
      LabelThenGroupFresh(A, G, next, f.next, after);
    }
  }

  /** The ids of a visit's result are distinct and drawn from the counter values the visit consumed. */
  lemma {:induction false} LowerIds(node: Node, next: nat)
    ensures var res := Lower(node, next);
      res.0.Some? ==> InRange(IdNumbers(res.0.value), next, res.1) && Distinct(IdNumbers(res.0.value))
    decreases node, 0, 0
  {
    match node
    case Text(_) => LabelIds(Lower(node, next).0, next);
    case Bold(_) => LabelIds(Lower(node, next).0, next);
    case LineBreak => LabelIds(Lower(node, next).0, next);
    case Section(title, children) =>
      if title.Some? {
        TitledSectionIds(title.value, children, next);
      } else {
        ComposeIds(Id(SectionId, next), [], children, next, next + 1);
      }
    case Generic(children) =>
      ComposeIds(Id(ParentId, next), [], children, next, next + 1);
    case XMLContainer(_) =>
    case XMLStandalone =>
  }

  /** A leaf visit gives at most one label, numbered with the counter it started from. */
  lemma LabelIds(r: Option<Render>, next: nat)
    requires r.Some? ==> r.value.Label? && r.value.id.n == next
    ensures r.Some? ==> InRange(IdNumbers(r.value), next, next + 1) && Distinct(IdNumbers(r.value))
  {
    if r.Some? {
      assert IdNumbers(r.value) == [next];
    }
  }

  lemma {:induction false} TitledSectionIds(title: string, children: seq<Node>, next: nat)
    ensures var res := Lower(Section(Some(title), children), next);
      res.0.Some? ==> InRange(IdNumbers(res.0.value), next, res.1) && Distinct(IdNumbers(res.0.value))
    decreases children, |children| + 2, 0
  {
    var t := Label(Id(TitleId, next + 1), CollapseSpaces(title));
    assert IdNumbersAll([t]) == [next + 1];
    ComposeIds(Id(SectionId, next + 2), [t], children, next, next + 3);
  }

  lemma {:induction false} ComposeStateIds(children: seq<Node>, i: nat, next: nat)
    requires i <= |children|
    ensures FreshSince(ComposeState(children, i, next), next)
    decreases children, i, 0
  {
    if i > 0 {
      ComposeStateIds(children, i - 1, next);
      var f := ComposeState(children, i - 1, next);
      var res := Lower(children[i - 1], f.next);
      LowerIds(children[i - 1], f.next);
      if res.0.Some? && res.0.value.Group? {
        StepGroupFresh(f, res.0.value, res.1, next);
      }
    }
  }

  /** The ids of a group: its own, then its initial children's, then the appended ones'. */
  lemma GroupIdNumbers(groupId: Id, initial: seq<Render>, appended: seq<Render>)
    ensures IdNumbers(Group(groupId, initial + appended)) == [groupId.n] + IdNumbersAll(initial) + IdNumbersAll(appended)
  {
    IdNumbersAllConcat(initial, appended);
  }

  /**
   * The group id and the initial children were drawn from `[lo, next)`; the composed
   * result's ids are then distinct and drawn from `[lo, counter after)`.
   */
  lemma {:induction false} ComposeIds(groupId: Id, initial: seq<Render>, children: seq<Node>, lo: nat, next: nat)
    requires lo <= next
    requires InRange([groupId.n] + IdNumbersAll(initial), lo, next) && Distinct([groupId.n] + IdNumbersAll(initial))
    ensures var res := Compose(groupId, initial, children, next);
      res.0.Some? ==> InRange(IdNumbers(res.0.value), lo, res.1) && Distinct(IdNumbers(res.0.value))
    decreases children, |children| + 1, 0
  {
    var res := Compose(groupId, initial, children, next);
    if |children| == 1 {
      LowerIds(children[0], next);
      if res.0.Some? {
        InRangeWiden(IdNumbers(res.0.value), next, res.1, lo, res.1);
      }
    } else {
      ComposeStateIds(children, |children|, next);
      var f := ComposeState(children, |children|, next);
      FlushFresh(f, next);
      var h := Flush(f);
      if res.0.Some? {
        GroupIdNumbers(groupId, initial, h.appended);
        DistinctConcat([groupId.n] + IdNumbersAll(initial), IdNumbersAll(h.appended), lo, next, next, h.next, lo, h.next);
      }
    }
  }

  // ---------------------------------------------------------------------------------------
  // Laws of the individual visits

  /**
   * A text node yields a label exactly when its content is non-empty (whitespace counts), and
   * consumes an id exactly then; the label's text has no double space and loses nothing but
   * spaces.
   */
  lemma TextLaw(content: string, next: nat)
    ensures var res := Lower(Text(content), next);
      && (res.0.None? <==> content == [])
      && (res.0.None? ==> res.1 == next)
      && (res.0.Some? ==>
            && res.1 == next + 1 && res.0.value.Label? && res.0.value.id == Id(TextId, next)
            && NoDoubleSpace(res.0.value.text)
            && Without(res.0.value.text, ' ') == Without(content, ' '))
  {
    CollapseSpacesKeepsText(content);
  }

  /** The `Text` children of a bold node, in order. */
  function TextChildren(children: seq<Node>): (r: seq<Node>)
    ensures forall k :: 0 <= k < |r| ==> r[k].Text?
  {
    if children == [] then []
    else (if children[0].Text? then [children[0]] else []) + TextChildren(children[1..])
  }

  lemma {:induction false} BoldTextOfTextChildren(children: seq<Node>)
    ensures BoldText(TextChildren(children)) == BoldText(children)
    decreases |children|
  {
    if children != [] {
      BoldTextOfTextChildren(children[1..]);
      var t := TextChildren(children[1..]);
      if children[0].Text? {
        assert TextChildren(children) == [children[0]] + t;
        assert (TextChildren(children))[1..] == t;
      } else {
        assert TextChildren(children) == t;
      }
    }
  }

  /**
   * A bold node is read from its direct `Text` children alone (its other children are not
   * visited and consume no id); it yields a label exactly when that text is not blank.
   */
  lemma BoldLaw(children: seq<Node>, next: nat)
    ensures Lower(Bold(children), next) == Lower(Bold(TextChildren(children)), next)
    ensures var res := Lower(Bold(children), next);
      && (res.0.None? <==> Trim(BoldText(children)) == [])
      && (res.0.None? ==> res.1 == next)
      && (res.0.Some? ==>
            && res.1 == next + 1 && res.0.value.Label? && res.0.value.id == Id(TextId, next)
            && Without(res.0.value.text, ' ') == Without(BoldText(children), ' '))
  {
    BoldTextOfTextChildren(children);
    CollapseSpacesKeepsText(BoldText(children));
  }

  /** A blank bold node yields nothing, where a blank text node yields a label. */
  lemma BlankBoldVersusBlankText(b: string, next: nat)
    requires b != [] && forall i :: 0 <= i < |b| ==> IsBlank(b[i])
    ensures Lower(Bold([Text(b)]), next) == (None, next)
    ensures Lower(Text(b), next) == (Some(Label(Id(TextId, next), CollapseSpaces(b))), next + 1)
  {
    assert BoldText([Text(b)]) == b by {
      assert [Text(b)][1..] == [];
    }
    TrimEmptyIff(b);
  }

  /**
   * A titled section with other than one child: the title takes the id after the one
   * reserved first, the section the one after that, and the title label is the first child
   * of the group; the title does not count as text, so the section is empty exactly when
   * its children yield no text.
   */
  lemma SectionTitleLaw(title: string, children: seq<Node>, next: nat)
    requires |children| != 1
    ensures var res := Lower(Section(Some(title), children), next);
      var f := ComposeState(children, |children|, next + 3);
      && (res.0.None? <==> !HasContent(f.seen))
      && (res.0.Some? ==>
            && res.0.value.Group? && res.0.value.id == Id(SectionId, next + 2)
            && |res.0.value.children| >= 1
            && res.0.value.children[0] == Label(Id(TitleId, next + 1), CollapseSpaces(title))
            && NoAdjacentLabels(res.0.value.children[1..]))
  {
    var t := Label(Id(TitleId, next + 1), CollapseSpaces(title));
    ComposeResult(Id(SectionId, next + 2), [t], children, next + 3);
  }

  /**
   * A section or generic node with exactly one child returns that child's result in place
   * of a group, discarding the group (and a section's title) but not the ids reserved for
   * them.
   */
  lemma SingleChildLaw(title: Option<string>, child: Node, next: nat)
    ensures Lower(Section(title, [child]), next) == Lower(child, next + if title.Some? then 3 else 1)
    ensures Lower(Generic([child]), next) == Lower(child, next + 1)
  {
  }

  /** So a lone line break under a node is returned as a line-break label, not elided. */
  lemma LoneLineBreakKept(next: nat)
    ensures Lower(Generic([LineBreak]), next) == (Some(Label(Id(LineBreakId, next + 1), "\n")), next + 2)
  {
    SingleChildLaw(None, LineBreak, next);
  }

  /** A node without children yields nothing but still consumes the ids reserved for it. */
  lemma NoChildrenLaw(title: Option<string>, next: nat)
    ensures Lower(Section(title, []), next) == (None, next + if title.Some? then 3 else 1)
    ensures Lower(Generic([]), next) == (None, next + 1)
  {
    ComposeResult(Id(SectionId, next + if title.Some? then 2 else 0), if title.Some? then [Label(Id(TitleId, next + 1), CollapseSpaces(title.value))] else [], [], next + if title.Some? then 3 else 1);
    ComposeResult(Id(ParentId, next), [], [], next + 1);
  }

  /** Line breaks alone count for nothing: a node whose children are two line breaks yields nothing. */
  lemma TwoLineBreaksElided(next: nat)
    ensures Lower(Generic([LineBreak, LineBreak]), next).0.None?
  {
    LineBreaksOnlyElided(Id(ParentId, next), [], [LineBreak, LineBreak], next + 1);
  }

  /** A blank text beside a line break still counts as text, so the node yields its group. */
  lemma BlankTextBesideLineBreak(next: nat)
    ensures Lower(Generic([Text(" "), LineBreak]), next).0.Some?
  {
    var children := [Text(" "), LineBreak];
    var f0 := ComposeState(children, 0, next + 1);
    assert f0 == Start(next + 1);
    BlankBoldVersusBlankText(" ", next + 1);
    var t := Label(Id(TextId, next + 1), CollapseSpaces(" "));
    assert Lower(children[0], next + 1) == (Some(t), next + 2);
    LineBreakIdIff(t.id);
    var f1 := ComposeState(children, 1, next + 1);
    assert f1 == Step(f0, Some(t), next + 2);
    assert f1.anyText;
    var f2 := ComposeState(children, 2, next + 1);
    assert f2.anyText;
  }

  lemma ConcatTwo(x: string, y: string)
    ensures Concat([x, y]) == x + y
  {
    assert [x, y][..1] == [x];
    assert [x][..0] == [];
    assert Concat([x]) == x;
  }

  /** The loop state after two non-empty texts: both labels wait to be merged. */
  lemma TwoTextsState(a: string, b: string, next: nat)
    requires a != [] && b != []
    ensures ComposeState([Text(a), Text(b)], 2, next)
         == Fold([], [CollapseSpaces(a), CollapseSpaces(b)], true, next + 2, [TextLabel(a, next), TextLabel(b, next + 1)])
  {
    var children := [Text(a), Text(b)];
    var f0 := ComposeState(children, 0, next);
    assert f0 == Start(next);
    var la := TextLabel(a, next);
    var lb := TextLabel(b, next + 1);
    assert Lower(children[0], next) == (Some(la), next + 1);
    var f1 := ComposeState(children, 1, next);
    assert f1 == Step(f0, Some(la), next + 1);
    LineBreakIdIff(la.id);
    assert f1 == Fold([], [CollapseSpaces(a)], true, next + 1, [la]);
    assert Lower(children[1], next + 1) == (Some(lb), next + 2);
    assert ComposeState(children, 2, next) == Step(f1, Some(lb), next + 2);
  }

  /**
   * Two adjacent text children are merged into one label, after the ids of the node and of
   * both texts: the merged label's text is their collapsed texts joined, collapsed again.
   */
  lemma MergeTwoTexts(a: string, b: string, next: nat)
    requires a != [] && b != []
    ensures Lower(Generic([Text(a), Text(b)]), next)
         == (Some(Group(Id(ParentId, next), [Label(Id(TextId, next + 3), CollapseSpaces(CollapseSpaces(a) + CollapseSpaces(b)))])), next + 4)
  {
    var children := [Text(a), Text(b)];
    var x, y := CollapseSpaces(a), CollapseSpaces(b);
    TwoTextsState(a, b, next + 1);
    ConcatTwo(x, y);
    var f := ComposeState(children, |children|, next + 1);
    assert f.pending == [x, y] && f.appended == [] && f.next == next + 3 && f.anyText;
    var h := Flush(f);
    assert h.appended == [TextLabel(x + y, next + 3)] && h.next == next + 4 && h.anyText;
    assert Lower(Generic(children), next) == Compose(Id(ParentId, next), [], children, next + 1);
  }

}
