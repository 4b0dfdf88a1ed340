/** The change monitor's tree differ: a positional, recursive comparison of
    two parsed HTML trees (bs4 `BeautifulSoup`, `Tag` and `NavigableString`
    nodes) that returns the set of differences it finds. */
module TreeDiff {
  import opened Wrappers
  import opened Lists

  /** bs4's `NavigableString` and the subclasses its HTML builders create.
      Each is a distinct Python type, so two strings of different kinds differ
      in type. The first six print their text as it is; the last five wrap it
      in their own delimiters (`<!--`, `<![CDATA[`, `<?`, `<!DOCTYPE`). */
  datatype TextKind =
    | NavigableString | Script | Stylesheet | TemplateString | RubyTextString | RubyParenthesisString
    | Comment | CData | ProcessingInstruction | Declaration | Doctype

  /** A parsed node. `Document` is the `BeautifulSoup` root object, whose name
      is "[document]", whose attribute map is empty and whose source position
      is unknown. A `Tag` records the line and column its start tag was read
      at, when the parser reports them. Text nodes carry no position. */
  datatype Node =
    | Document(children: seq<Node>)
    | Tag(name: string, attrs: map<string, string>, children: seq<Node>,
          line: Option<int>, col: Option<int>)
    | Text(kind: TextKind, content: string)

  /** `(sourceline, sourcepos)` of a change, each possibly `None`. */
  type Where = (Option<int>, Option<int>)

  /** One change record: where it is (taken from the current node), the
      parents of the compared pair, what changed, and the pair itself. The
      nodes are stored as their `Key`s, so two records are the same exactly
      when Python's set holds them once. */
  datatype Change = Change(where: Where, parents: (Option<Node>, Option<Node>),
                           what: string, elems: (Option<Node>, Option<Node>))

  const ElementRemoved := "element removed"
  const ElementAdded := "element added"
  const ElementType := "element type"
  const TextChanged := "text"

  /** Every label the differ can produce. */
  const Labels: set<string> :=
    {ElementRemoved, ElementAdded, ElementType, TextChanged,
     "tag type", "tag attributes", "tag type, attributes"}

  /** The Python type of a node or of `None`. */
  datatype PyType = NoneType | BeautifulSoupType | TagType | StringType(kind: TextKind)

  function TypeOf(n: Option<Node>): PyType {
    match n
    case None => NoneType
    case Some(Document(_)) => BeautifulSoupType
    case Some(Tag(_, _, _, _, _)) => TagType
    case Some(Text(k, _)) => StringType(k)
  }

  /** Python truthiness: a tag (or document) is always true, a string is true
      when it is not empty, `None` is false. */
  predicate Truthy(n: Option<Node>) {
    match n
    case None => false
    case Some(Text(_, s)) => s != ""
    case Some(_) => true
  }

  /** The position of the current node: `(sourceline, sourcepos)` for a tag,
      `(None, None)` for the document, a string or `None`. */
  function WhereOf(n: Option<Node>): Where {
    match n
    case Some(Tag(_, _, _, line, col)) => (line, col)
    case _ => (None, None)
  }

  predicate IsElement(n: Node) {
    n.Document? || n.Tag?
  }

  function NameOf(n: Node): string {
    if n.Tag? then n.name else "[document]"
  }

  function AttrsOf(n: Node): map<string, string> {
    if n.Tag? then n.attrs else map[]
  }

  function Kids(n: Node): seq<Node> {
    if n.Text? then [] else n.children
  }

  /** Number of nodes in a tree, the measure the recursion descends on. */
  function Size(n: Node): nat {
    match n
    case Text(_, _) => 1
    case Document(cs) => 1 + SizeOfAll(cs)
    case Tag(_, _, cs, _, _) => 1 + SizeOfAll(cs)
  }

  function SizeOfAll(cs: seq<Node>): nat {
    if cs == [] then 0 else Size(cs[0]) + SizeOfAll(cs[1..])
  }

  function OptSize(n: Option<Node>): nat {
    if n.Some? then Size(n.value) else 0
  }

  function PairSize(p: (Option<Node>, Option<Node>)): nat {
    OptSize(p.0) + OptSize(p.1)
  }

  lemma {:induction false} ChildSmaller(cs: seq<Node>, k: int)
    requires 0 <= k < |cs|
    ensures Size(cs[k]) <= SizeOfAll(cs)
  {
    if k > 0 {
      ChildSmaller(cs[1..], k - 1);
    }
  }

  /** A child list extended with `None` up to length `len`. */
  function Pad(cs: seq<Node>, len: int): (r: seq<Option<Node>>)
    requires |cs| <= len
    ensures |r| == len
    ensures forall k :: 0 <= k < |cs| ==> r[k] == Some(cs[k])
    ensures forall k :: |cs| <= k < len ==> r[k] == None
  {
    seq(len, k requires 0 <= k < len => if k < |cs| then Some(cs[k]) else None)
  }

  lemma PadAt(cs: seq<Node>, len: int, k: int)
    ensures |cs| <= len && 0 <= k < len ==>
              Pad(cs, len)[k] == if k < |cs| then Some(cs[k]) else None
  {
  }

  function Max(a: int, b: int): int {
    if a < b then b else a
  }

  /** The common length of the two padded child lists. */
  function Width(before: Node, now: Node): nat {
    Max(|Kids(before)|, |Kids(now)|)
  }

  lemma PaddedChildSmaller(before: Node, now: Node, k: int)
    requires 0 <= k < Width(before, now)
    ensures OptSize(Pad(Kids(before), Width(before, now))[k])
            + OptSize(Pad(Kids(now), Width(before, now))[k])
            < Size(before) + Size(now)
  {
    if k < |Kids(before)| {
      ChildSmaller(Kids(before), k);
    }
    if k < |Kids(now)| {
      ChildSmaller(Kids(now), k);
    }
  }

  /** Whether a string kind wraps its text in delimiters when printed. */
  predicate Delimited(k: TextKind) {
    k.Comment? || k.CData? || k.ProcessingInstruction? || k.Declaration? || k.Doctype?
  }

  /** A tree as its markup shows it: positions forgotten, and the kinds that
      print their text as it is merged into `NavigableString`. */
  function Shape(n: Node): (r: Node)
    ensures Size(r) == Size(n)
  {
    match n
    case Text(k, s) => Text(if Delimited(k) then k else NavigableString, s)
    case Document(cs) => Document(ShapeAll(cs))
    case Tag(name, attrs, cs, _, _) => Tag(name, attrs, ShapeAll(cs), None, None)
  }

  function ShapeAll(cs: seq<Node>): (r: seq<Node>)
    ensures |r| == |cs| && SizeOfAll(r) == SizeOfAll(cs)
  {
    if cs == [] then []
    else
      var r := [Shape(cs[0])] + ShapeAll(cs[1..]);
      assert r[1..] == ShapeAll(cs[1..]);
      r
  }

  /** What Python's set sees of a node held in a record. A string compares
      and hashes as its text, whatever its kind. A tag (or the document)
      compares by name, attributes and children, and hashes by its markup,
      so positions never count and the kind of a string inside it counts only
      as far as its markup shows it. */
  function Key(n: Option<Node>): (r: Option<Node>)
    ensures OptSize(r) == OptSize(n)
  {
    match n
    case None => None
    case Some(Text(_, s)) => Some(Text(NavigableString, s))
    case Some(e) => Some(Shape(e))
  }

  function Keys(before: Option<Node>, now: Option<Node>): (Option<Node>, Option<Node>) {
    (Key(before), Key(now))
  }

  /** Two strings give the same key exactly when their texts agree; two tags
      that differ only in their own positions give the same key; and tags
      with the same key have the same name and attributes. */
  lemma KeyEquality(s: string, t: string, k1: TextKind, k2: TextKind, e1: Node, e2: Node)
    ensures Key(Some(Text(k1, s))) == Key(Some(Text(k2, t))) <==> s == t
    ensures e1.Tag? && e2.Tag? && e1.name == e2.name && e1.attrs == e2.attrs && e1.children == e2.children
            ==> Key(Some(e1)) == Key(Some(e2))
    ensures IsElement(e1) && IsElement(e2) && Key(Some(e1)) == Key(Some(e2))
            ==> TypeOf(Some(e1)) == TypeOf(Some(e2)) && NameOf(e1) == NameOf(e2) && AttrsOf(e1) == AttrsOf(e2)
  {
  }

  /** What differs between two tags of the same type: "type" when the names
      differ, then "attributes" when the attribute maps differ. */
  function What(before: Node, now: Node): seq<string> {
    Differing(NameOf(before) != NameOf(now), AttrsOf(before) != AttrsOf(now))
  }

  function Differing(nameDiffers: bool, attrsDiffer: bool): seq<string> {
    (if nameDiffers then ["type"] else []) + (if attrsDiffer then ["attributes"] else [])
  }

  lemma DifferingLabels(nameDiffers: bool, attrsDiffer: bool)
    ensures nameDiffers && attrsDiffer ==> "tag " + JoinComma(Differing(nameDiffers, attrsDiffer)) == "tag type, attributes"
    ensures nameDiffers && !attrsDiffer ==> "tag " + JoinComma(Differing(nameDiffers, attrsDiffer)) == "tag type"
    ensures !nameDiffers && attrsDiffer ==> "tag " + JoinComma(Differing(nameDiffers, attrsDiffer)) == "tag attributes"
    ensures Differing(nameDiffers, attrsDiffer) == [] <==> !nameDiffers && !attrsDiffer
  {
    var what := Differing(nameDiffers, attrsDiffer);
    if nameDiffers && attrsDiffer {
      assert what == ["type", "attributes"];
      assert what[1..] == ["attributes"];
      assert JoinComma(what) == "type" + ", " + "attributes";
    } else if nameDiffers {
      assert what == ["type"];
    } else if attrsDiffer {
      assert what == ["attributes"];
    } else {
      assert what == [];
    }
  }

  /** The label of a tag pair's own record lists "type" before "attributes". */
  lemma TagLabels(before: Node, now: Node)
    ensures (NameOf(before) != NameOf(now) && AttrsOf(before) != AttrsOf(now))
              ==> "tag " + JoinComma(What(before, now)) == "tag type, attributes"
    ensures (NameOf(before) != NameOf(now) && AttrsOf(before) == AttrsOf(now))
              ==> "tag " + JoinComma(What(before, now)) == "tag type"
    ensures (NameOf(before) == NameOf(now) && AttrsOf(before) != AttrsOf(now))
              ==> "tag " + JoinComma(What(before, now)) == "tag attributes"
    ensures What(before, now) == [] <==> NameOf(before) == NameOf(now) && AttrsOf(before) == AttrsOf(now)
  {
    DifferingLabels(NameOf(before) != NameOf(now), AttrsOf(before) != AttrsOf(now));
  }

  /** The record a tag pair contributes for itself, if anything differs. */
  function OwnTagChange(parents: (Option<Node>, Option<Node>), before: Node, now: Node): (r: set<Change>)
    ensures forall c :: c in r ==> c.what in Labels
  {
    var what := What(before, now);
    TagLabels(before, now);
    if what != [] then {Change(WhereOf(Some(now)), parents, "tag " + JoinComma(what), Keys(Some(before), Some(now)))}
    else {}
  }

  /** The differences between `before` and `now`, whose parents are
      `beforeParent` and `nowParent`. Every record is about this pair or
      about a strictly smaller pair inside it, and the records about this pair
      carry this pair's parents and the current node's position. */
  function FindDifferences(beforeParent: Option<Node>, nowParent: Option<Node>,
                           before: Option<Node>, now: Option<Node>): (r: set<Change>)
    ensures forall c :: c in r ==> c.what in Labels
    ensures forall c :: c in r ==> c.elems == Keys(before, now) || PairSize(c.elems) < PairSize((before, now))
    ensures forall c :: c in r && c.elems == Keys(before, now) ==>
              c.parents == Keys(beforeParent, nowParent) && c.where == WhereOf(now)
    decreases OptSize(before) + OptSize(now), 1, 0
  {
    var parents := Keys(beforeParent, nowParent);
    var where := WhereOf(now);
    var elems := Keys(before, now);
    if Truthy(before) && !Truthy(now) then
      {Change(where, parents, ElementRemoved, elems)}
    else if !Truthy(before) && Truthy(now) then
      {Change(where, parents, ElementAdded, elems)}
    else if TypeOf(before) != TypeOf(now) then
      {Change(where, parents, ElementType, elems)}
    else if before.Some? && before.value.Text? then
      if before.value.content != now.value.content then {Change(where, parents, TextChanged, elems)} else {}
    else if before.Some? then
      OwnTagChange(parents, before.value, now.value) + ChildDifferences(before.value, now.value, 0)
    else
      {}
  }

  /** The union of the differences between the padded children of `before`
      and `now` at positions `from` and beyond, each compared with this pair as
      its parents. */
  function ChildDifferences(before: Node, now: Node, from: nat): (r: set<Change>)
    requires IsElement(before) && IsElement(now)
    ensures forall c :: c in r ==> c.what in Labels
    ensures forall c :: c in r ==> PairSize(c.elems) < Size(before) + Size(now)
    decreases Size(before) + Size(now), 0, Width(before, now) - from
  {
    var width := Width(before, now);
    if from >= width then {}
    else
      PaddedChildSmaller(before, now, from);
      FindDifferences(Some(before), Some(now), Pad(Kids(before), width)[from], Pad(Kids(now), width)[from])
      + ChildDifferences(before, now, from + 1)
  }

  /** `c` is among the differences of the padded children at position `k`. */
  predicate InChildPair(before: Node, now: Node, k: int, c: Change)
    requires IsElement(before) && IsElement(now)
  {
    0 <= k < Width(before, now) &&
    c in FindDifferences(Some(before), Some(now),
                         Pad(Kids(before), Width(before, now))[k],
                         Pad(Kids(now), Width(before, now))[k])
  }

  /** Every child difference comes from the children at some padded
      position at or after `from`. */
  lemma {:induction false} ChildDifferenceSource(before: Node, now: Node, from: nat, c: Change)
    returns (k: int)
    requires IsElement(before) && IsElement(now)
    requires c in ChildDifferences(before, now, from)
    ensures from <= k && InChildPair(before, now, k, c)
    decreases Width(before, now) - from
  {
    var w := Width(before, now);
    var here := FindDifferences(Some(before), Some(now), Pad(Kids(before), w)[from], Pad(Kids(now), w)[from]);
    if c in here {
      k := from;
    } else {
      k := ChildDifferenceSource(before, now, from + 1, c);
    }
  }

  /** Every difference of the children at a padded position at or after
      `from` is a child difference. */
  lemma {:induction false} ChildDifferenceIncluded(before: Node, now: Node, from: nat, k: int, c: Change)
    requires IsElement(before) && IsElement(now)
    requires from <= k && InChildPair(before, now, k, c)
    ensures c in ChildDifferences(before, now, from)
    decreases Width(before, now) - from
  {
    if from < k {
      ChildDifferenceIncluded(before, now, from + 1, k, c);
    }
  }

  /** The child differences are exactly the union, over the padded positions
      from `from` on, of the differences of the children at that position. */
  lemma ChildDifferencesMembers(before: Node, now: Node, from: nat, c: Change)
    requires IsElement(before) && IsElement(now)
    ensures c in ChildDifferences(before, now, from) <==>
              exists k :: from <= k && InChildPair(before, now, k, c)
  {
    if c in ChildDifferences(before, now, from) {
      var k := ChildDifferenceSource(before, now, from, c);
    }
    if exists k :: from <= k && InChildPair(before, now, k, c) {
      var k :| from <= k && InChildPair(before, now, k, c);
      ChildDifferenceIncluded(before, now, from, k, c);
    }
  }

  /** A tree with every source position forgotten. */
  function Strip(n: Node): Node {
    match n
    case Text(_, _) => n
    case Document(cs) => Document(StripAll(cs))
    case Tag(name, attrs, cs, _, _) => Tag(name, attrs, StripAll(cs), None, None)
  }

  function StripAll(cs: seq<Node>): (r: seq<Node>)
    ensures |r| == |cs|
  {
    if cs == [] then [] else [Strip(cs[0])] + StripAll(cs[1..])
  }

  lemma {:induction false} StripAllAt(cs: seq<Node>, k: int)
    requires 0 <= k < |cs|
    ensures StripAll(cs)[k] == Strip(cs[k])
  {
    if k > 0 {
      StripAllAt(cs[1..], k - 1);
    }
  }

  function OptStrip(n: Option<Node>): Option<Node> {
    if n.Some? then Some(Strip(n.value)) else None
  }

  /** Forgetting positions keeps everything the differ looks at except the
      positions themselves. */
  lemma StripKeeps(n: Option<Node>)
    ensures TypeOf(OptStrip(n)) == TypeOf(n)
    ensures Truthy(OptStrip(n)) == Truthy(n)
    ensures n.Some? && n.value.Text? ==> OptStrip(n) == n
    ensures n.Some? && IsElement(n.value) ==>
              NameOf(Strip(n.value)) == NameOf(n.value) && AttrsOf(Strip(n.value)) == AttrsOf(n.value)
              && Kids(Strip(n.value)) == StripAll(Kids(n.value))
  {
  }

  /** Two element nodes of the same type forget to the same tree exactly when
      their names, attributes and forgotten child lists agree. */
  lemma StripElements(before: Node, now: Node)
    requires IsElement(before) && IsElement(now)
    requires TypeOf(Some(before)) == TypeOf(Some(now))
    ensures Strip(before) == Strip(now) <==>
              NameOf(before) == NameOf(now) && AttrsOf(before) == AttrsOf(now)
              && StripAll(Kids(before)) == StripAll(Kids(now))
  {
    if Strip(before) == Strip(now) {
      StripKeeps(Some(before));
      StripKeeps(Some(now));
    }
  }

  /** The differ reports nothing for a pair exactly when the two sides are
      equal once source positions are forgotten. */
  lemma {:induction false} NoChangesIffSameContent(beforeParent: Option<Node>, nowParent: Option<Node>,
                                                   before: Option<Node>, now: Option<Node>)
    ensures FindDifferences(beforeParent, nowParent, before, now) == {} <==> OptStrip(before) == OptStrip(now)
    decreases OptSize(before) + OptSize(now), 1
  {
    StripKeeps(before);
    StripKeeps(now);
    var r := FindDifferences(beforeParent, nowParent, before, now);
    if Truthy(before) != Truthy(now) || TypeOf(before) != TypeOf(now) {
      assert r != {};
    } else if before.Some? && before.value.Text? {
    } else if before.Some? {
      var b, n := before.value, now.value;
      assert r == OwnTagChange(Keys(beforeParent, nowParent), b, n) + ChildDifferences(b, n, 0);
      TagLabels(b, n);
      ChildrenNoChanges(b, n);
      StripElements(b, n);
    }
  }

  /** The children of a pair report nothing exactly when the two child lists
      are equal once positions are forgotten. */
  lemma {:induction false} ChildrenNoChanges(before: Node, now: Node)
    requires IsElement(before) && IsElement(now)
    ensures ChildDifferences(before, now, 0) == {} <==> StripAll(Kids(before)) == StripAll(Kids(now))
    decreases Size(before) + Size(now), 0
  {
    var w := Width(before, now);
    var kb, kn := Kids(before), Kids(now);
    var pb, pn := Pad(kb, w), Pad(kn, w);
    forall k | 0 <= k < w
      ensures FindDifferences(Some(before), Some(now), pb[k], pn[k]) == {} <==> OptStrip(pb[k]) == OptStrip(pn[k])
    {
      PaddedChildSmaller(before, now, k);
      NoChangesIffSameContent(Some(before), Some(now), pb[k], pn[k]);
    }
    if ChildDifferences(before, now, 0) == {} {
      forall k | 0 <= k < w
        ensures OptStrip(pb[k]) == OptStrip(pn[k])
      {
        if c :| c in FindDifferences(Some(before), Some(now), pb[k], pn[k]) {
          ChildDifferenceIncluded(before, now, 0, k, c);
        }
      }
      if |kb| != |kn| {
        var m := if |kb| < |kn| then |kb| else |kn|;
        PadAt(kb, w, m);
        PadAt(kn, w, m);
        assert false;
      }
      forall k | 0 <= k < |kb|
        ensures StripAll(kb)[k] == StripAll(kn)[k]
      {
        StripAllAt(kb, k);
        StripAllAt(kn, k);
        assert OptStrip(pb[k]) == OptStrip(pn[k]);
      }
    } else {
      var c :| c in ChildDifferences(before, now, 0);
      var k := ChildDifferenceSource(before, now, 0, c);
      assert OptStrip(pb[k]) != OptStrip(pn[k]);
      if |kb| == |kn| {
        StripAllAt(kb, k);
        StripAllAt(kn, k);
        assert StripAll(kb)[k] != StripAll(kn)[k];
      }
    }
  }

  /** Diffing a tree against an equal copy reports nothing. */
  lemma IdenticalCopyHasNoChanges(beforeParent: Option<Node>, nowParent: Option<Node>, tree: Option<Node>)
    ensures FindDifferences(beforeParent, nowParent, tree, tree) == {}
  {
    NoChangesIffSameContent(beforeParent, nowParent, tree, tree);
  }

  /** Whether anything changed does not depend on which side is the old one. */
  lemma NoChangesSymmetric(beforeParent: Option<Node>, nowParent: Option<Node>,
                           before: Option<Node>, now: Option<Node>)
    ensures FindDifferences(beforeParent, nowParent, before, now) == {}
            <==> FindDifferences(nowParent, beforeParent, now, before) == {}
  {
    NoChangesIffSameContent(beforeParent, nowParent, before, now);
    NoChangesIffSameContent(nowParent, beforeParent, now, before);
  }

  /** A present node against an absent one gives exactly one removal record,
      at `(None, None)` since the position comes from the absent side, and
      nothing below it. */
  lemma RemovedPair(beforeParent: Option<Node>, nowParent: Option<Node>,
                    before: Option<Node>, now: Option<Node>)
    requires Truthy(before) && !Truthy(now)
    ensures FindDifferences(beforeParent, nowParent, before, now)
            == {Change((None, None), Keys(beforeParent, nowParent), ElementRemoved, Keys(before, now))}
  {
  }

  /** An absent node against a present one gives exactly one addition record. */
  lemma AddedPair(beforeParent: Option<Node>, nowParent: Option<Node>,
                  before: Option<Node>, now: Option<Node>)
    requires !Truthy(before) && Truthy(now)
    ensures FindDifferences(beforeParent, nowParent, before, now)
            == {Change(WhereOf(now), Keys(beforeParent, nowParent), ElementAdded, Keys(before, now))}
  {
  }

  /** Nodes of different types give exactly one type record; their children
      are never compared. */
  lemma TypeChangedPair(beforeParent: Option<Node>, nowParent: Option<Node>,
                        before: Option<Node>, now: Option<Node>)
    requires Truthy(before) == Truthy(now) && TypeOf(before) != TypeOf(now)
    ensures FindDifferences(beforeParent, nowParent, before, now)
            == {Change(WhereOf(now), Keys(beforeParent, nowParent), ElementType, Keys(before, now))}
  {
  }

  /** Two strings of the same kind give one text record exactly when their
      contents differ; the record holds the two texts, whatever their kind.
      A string that becomes empty, or stops being empty, counts as removed or
      added, because the empty string is false. */
  lemma TextPair(beforeParent: Option<Node>, nowParent: Option<Node>, kind: TextKind, s: string, t: string)
    ensures var r := FindDifferences(beforeParent, nowParent, Some(Text(kind, s)), Some(Text(kind, t)));
            var change := Change((None, None), Keys(beforeParent, nowParent), TextChanged,
                                 (Some(Text(NavigableString, s)), Some(Text(NavigableString, t))));
            && ((s == "") == (t == "") ==> r == if s != t then {change} else {})
            && (s != "" && t == "" ==> r == {change.(what := ElementRemoved)})
            && (s == "" && t != "" ==> r == {change.(what := ElementAdded)})
  {
  }

  /** For two nodes with children and of the same type, a record is either
      the pair's own tag record or a difference of the children at one padded
      position, compared with this pair as parents. */
  lemma ElementPairMembers(beforeParent: Option<Node>, nowParent: Option<Node>, before: Node, now: Node, c: Change)
    requires IsElement(before) && IsElement(now) && TypeOf(Some(before)) == TypeOf(Some(now))
    ensures c in FindDifferences(beforeParent, nowParent, Some(before), Some(now)) <==>
              c in OwnTagChange(Keys(beforeParent, nowParent), before, now)
              || exists k :: 0 <= k && InChildPair(before, now, k, c)
  {
    assert FindDifferences(beforeParent, nowParent, Some(before), Some(now))
        == OwnTagChange(Keys(beforeParent, nowParent), before, now) + ChildDifferences(before, now, 0);
    ChildDifferencesMembers(before, now, 0, c);
  }

  /** A pair of nodes with children contributes at most one record about
      itself: the tag record whose label lists what differs. */
  lemma OwnRecordOfElementPair(beforeParent: Option<Node>, nowParent: Option<Node>, before: Node, now: Node)
    requires IsElement(before) && IsElement(now) && TypeOf(Some(before)) == TypeOf(Some(now))
    ensures (set c | c in FindDifferences(beforeParent, nowParent, Some(before), Some(now))
                     && c.elems == Keys(Some(before), Some(now)))
            == OwnTagChange(Keys(beforeParent, nowParent), before, now)
    ensures |OwnTagChange(Keys(beforeParent, nowParent), before, now)| <= 1
  {
    var r := FindDifferences(beforeParent, nowParent, Some(before), Some(now));
    var own := OwnTagChange(Keys(beforeParent, nowParent), before, now);
    assert r == own + ChildDifferences(before, now, 0);
  }

  /** When one side has exactly one extra trailing child, which is present,
      and everything else agrees up to positions, the only record is the
      removal of that child. */
  lemma TrailingChildRemoved(beforeParent: Option<Node>, nowParent: Option<Node>, before: Node, now: Node)
    requires IsElement(before) && IsElement(now) && TypeOf(Some(before)) == TypeOf(Some(now))
    requires NameOf(before) == NameOf(now) && AttrsOf(before) == AttrsOf(now)
    requires |Kids(before)| == |Kids(now)| + 1
    requires StripAll(Kids(before)[..|Kids(now)|]) == StripAll(Kids(now))
    requires Truthy(Some(Kids(before)[|Kids(now)|]))
    ensures FindDifferences(beforeParent, nowParent, Some(before), Some(now))
            == {Change((None, None), Keys(Some(before), Some(now)), ElementRemoved,
                       Keys(Some(Kids(before)[|Kids(now)|]), None))}
  {
    assert FindDifferences(beforeParent, nowParent, Some(before), Some(now))
        == OwnTagChange(Keys(beforeParent, nowParent), before, now) + ChildDifferences(before, now, 0);
    TagLabels(before, now);
    TrailingChildDifferences(before, now);
  }

  /** The child differences of such a pair: the removal of the extra child. */
  lemma TrailingChildDifferences(before: Node, now: Node)
    requires IsElement(before) && IsElement(now)
    requires |Kids(before)| == |Kids(now)| + 1
    requires StripAll(Kids(before)[..|Kids(now)|]) == StripAll(Kids(now))
    requires Truthy(Some(Kids(before)[|Kids(now)|]))
    ensures ChildDifferences(before, now, 0)
            == {Change((None, None), Keys(Some(before), Some(now)), ElementRemoved,
                       Keys(Some(Kids(before)[|Kids(now)|]), None))}
  {
    var kb, kn := Kids(before), Kids(now);
    var w := Width(before, now);
    var pb, pn := Pad(kb, w), Pad(kn, w);
    var removal := Change((None, None), Keys(Some(before), Some(now)), ElementRemoved, Keys(Some(kb[|kn|]), None));
    forall c | c in ChildDifferences(before, now, 0)
      ensures c == removal
    {
      var k := ChildDifferenceSource(before, now, 0, c);
      TrailingPairAt(before, now, k);
    }
    TrailingPairAt(before, now, |kn|);
    ChildDifferenceIncluded(before, now, 0, |kn|, removal);
  }

  /** The padded children of such a pair differ only at the last position. */
  lemma TrailingPairAt(before: Node, now: Node, k: int)
    requires IsElement(before) && IsElement(now)
    requires |Kids(before)| == |Kids(now)| + 1
    requires StripAll(Kids(before)[..|Kids(now)|]) == StripAll(Kids(now))
    requires Truthy(Some(Kids(before)[|Kids(now)|]))
    requires 0 <= k < Width(before, now)
    ensures FindDifferences(Some(before), Some(now), Pad(Kids(before), Width(before, now))[k],
                            Pad(Kids(now), Width(before, now))[k])
            == if k < |Kids(now)| then {}
               else {Change((None, None), Keys(Some(before), Some(now)), ElementRemoved,
                            Keys(Some(Kids(before)[|Kids(now)|]), None))}
  {
    var kb, kn := Kids(before), Kids(now);
    var w := Width(before, now);
    var pb, pn := Pad(kb, w), Pad(kn, w);
    if k < |kn| {
      StripAllAt(kb[..|kn|], k);
      StripAllAt(kn, k);
      NoChangesIffSameContent(Some(before), Some(now), pb[k], pn[k]);
    } else {
      RemovedPair(Some(before), Some(now), pb[k], pn[k]);
    }
  }

  /** Two tags with the same name and the same children up to positions, but
      different attributes, give exactly one record: "tag attributes". */
  lemma AttributesOnlyChanged(beforeParent: Option<Node>, nowParent: Option<Node>, before: Node, now: Node)
    requires before.Tag? && now.Tag?
    requires before.name == now.name && before.attrs != now.attrs
    requires StripAll(before.children) == StripAll(now.children)
    ensures FindDifferences(beforeParent, nowParent, Some(before), Some(now))
            == {Change((now.line, now.col), Keys(beforeParent, nowParent), "tag attributes", Keys(Some(before), Some(now)))}
  {
    TagLabels(before, now);
    ChildrenNoChanges(before, now);
  }

  /** `<div><p>Hello</p></div>` against `<div><p>World</p></div>`: one text
      record, for the string inside `<p>`, whose parents are held without
      their positions. */
  lemma HelloWorldScenario()
    ensures var hello, world := Text(NavigableString, "Hello"), Text(NavigableString, "World");
            var pOld := Tag("p", map[], [hello], Some(1), Some(5));
            var pNew := Tag("p", map[], [world], Some(1), Some(5));
            var before := Document([Tag("div", map[], [pOld], Some(1), Some(0))]);
            var now := Document([Tag("div", map[], [pNew], Some(1), Some(0))]);
            FindDifferences(None, None, Some(before), Some(now))
            == {Change((None, None), (Some(pOld.(line := None, col := None)), Some(pNew.(line := None, col := None))),
                       TextChanged, (Some(hello), Some(world)))}
  {
    var hello, world := Text(NavigableString, "Hello"), Text(NavigableString, "World");
    var pOld := Tag("p", map[], [hello], Some(1), Some(5));
    var pNew := Tag("p", map[], [world], Some(1), Some(5));
    var divOld := Tag("div", map[], [pOld], Some(1), Some(0));
    var divNew := Tag("div", map[], [pNew], Some(1), Some(0));
    SingleChildPair(None, None, Document([divOld]), Document([divNew]));
    SingleChildPair(Some(Document([divOld])), Some(Document([divNew])), divOld, divNew);
    SingleChildPair(Some(divOld), Some(divNew), pOld, pNew);
    TextPair(Some(pOld), Some(pNew), NavigableString, "Hello", "World");
    assert ShapeAll([hello]) == [hello];
    assert ShapeAll([world]) == [world];
  }

  /** Two equal-looking elements with one child each report exactly what
      their children report. */
  lemma SingleChildPair(beforeParent: Option<Node>, nowParent: Option<Node>, before: Node, now: Node)
    requires IsElement(before) && IsElement(now) && TypeOf(Some(before)) == TypeOf(Some(now))
    requires NameOf(before) == NameOf(now) && AttrsOf(before) == AttrsOf(now)
    requires |Kids(before)| == 1 && |Kids(now)| == 1
    ensures FindDifferences(beforeParent, nowParent, Some(before), Some(now))
            == FindDifferences(Some(before), Some(now), Some(Kids(before)[0]), Some(Kids(now)[0]))
  {
    assert FindDifferences(beforeParent, nowParent, Some(before), Some(now))
        == OwnTagChange(Keys(beforeParent, nowParent), before, now) + ChildDifferences(before, now, 0);
    TagLabels(before, now);
    assert ChildDifferences(before, now, 1) == {};
  }

  /** A root with children `[p, span]` against one with `[p]`: one removal
      record, for the `span`. */
  lemma TrailingSpanScenario()
    ensures var p := Tag("p", map[], [], Some(1), Some(6));
            var span := Tag("span", map[], [], Some(1), Some(13));
            var before := Tag("body", map[], [p, span], Some(1), Some(0));
            var now := Tag("body", map[], [p], Some(1), Some(0));
            var p', span' := p.(line := None, col := None), span.(line := None, col := None);
            FindDifferences(None, None, Some(before), Some(now))
            == {Change((None, None), (Some(Tag("body", map[], [p', span'], None, None)), Some(Tag("body", map[], [p'], None, None))),
                       ElementRemoved, (Some(span'), None))}
  {
    var p := Tag("p", map[], [], Some(1), Some(6));
    var span := Tag("span", map[], [], Some(1), Some(13));
    var before := Tag("body", map[], [p, span], Some(1), Some(0));
    var now := Tag("body", map[], [p], Some(1), Some(0));
    assert Kids(before)[..|Kids(now)|] == Kids(now);
    TrailingChildRemoved(None, None, before, now);
    assert ShapeAll([span]) == [span.(line := None, col := None)];
    assert ShapeAll([p]) == [p.(line := None, col := None)];
    assert [p, span][1..] == [span];
    assert ShapeAll([p, span]) == [p.(line := None, col := None), span.(line := None, col := None)];
  }

  /** `<div class="a">` against an otherwise equal `<div class="b">`: one
      "tag attributes" record and nothing for the children. */
  lemma ClassAttributeScenario()
    ensures var child := Text(NavigableString, "x");
            var before := Tag("div", map["class" := "a"], [child], Some(3), Some(2));
            var now := Tag("div", map["class" := "b"], [child], Some(3), Some(2));
            FindDifferences(None, None, Some(before), Some(now))
            == {Change((Some(3), Some(2)), (None, None), "tag attributes",
                       (Some(before.(line := None, col := None)), Some(now.(line := None, col := None))))}
  {
    var child := Text(NavigableString, "x");
    var before := Tag("div", map["class" := "a"], [child], Some(3), Some(2));
    var now := Tag("div", map["class" := "b"], [child], Some(3), Some(2));
    assert before.attrs["class"] != now.attrs["class"];
    AttributesOnlyChanged(None, None, before, now);
    assert ShapeAll([child]) == [child];
  }

  /** `<ul><li>a</li><li>a</li></ul>` against `<ul><li>b</li><li>b</li></ul>`:
      both string changes give the same record, because their parents are
      equal `li` tags apart from their columns and a string has no position,
      so the set holds one record. */
  lemma EqualTextChangesCollapse()
    ensures var a, b := Text(NavigableString, "a"), Text(NavigableString, "b");
            var before := Tag("ul", map[], [Tag("li", map[], [a], Some(1), Some(4)),
                                            Tag("li", map[], [a], Some(1), Some(14))], Some(1), Some(0));
            var now := Tag("ul", map[], [Tag("li", map[], [b], Some(1), Some(4)),
                                         Tag("li", map[], [b], Some(1), Some(14))], Some(1), Some(0));
            FindDifferences(None, None, Some(before), Some(now))
            == {Change((None, None), (Some(Tag("li", map[], [a], None, None)), Some(Tag("li", map[], [b], None, None))),
                       TextChanged, (Some(a), Some(b)))}
  {
    var a, b := Text(NavigableString, "a"), Text(NavigableString, "b");
    var li1, li2 := Tag("li", map[], [a], Some(1), Some(4)), Tag("li", map[], [a], Some(1), Some(14));
    var li1', li2' := Tag("li", map[], [b], Some(1), Some(4)), Tag("li", map[], [b], Some(1), Some(14));
    var before := Tag("ul", map[], [li1, li2], Some(1), Some(0));
    var now := Tag("ul", map[], [li1', li2'], Some(1), Some(0));
    var change := Change((None, None), (Some(Tag("li", map[], [a], None, None)), Some(Tag("li", map[], [b], None, None))),
                         TextChanged, (Some(a), Some(b)));
    ListItemPair(before, now, 4);
    ListItemPair(before, now, 14);
    assert ChildDifferences(before, now, 2) == {};
    assert ChildDifferences(before, now, 1) == {change};
    assert ChildDifferences(before, now, 0) == {change};
    assert FindDifferences(None, None, Some(before), Some(now))
        == OwnTagChange(Keys(None, None), before, now) + ChildDifferences(before, now, 0);
    TagLabels(before, now);
  }

  /** One `li` pair of that list, at column `col`: the text record of its
      string. */
  lemma ListItemPair(ul: Node, ul': Node, col: int)
    ensures var a, b := Text(NavigableString, "a"), Text(NavigableString, "b");
            FindDifferences(Some(ul), Some(ul'), Some(Tag("li", map[], [a], Some(1), Some(col))),
                            Some(Tag("li", map[], [b], Some(1), Some(col))))
            == {Change((None, None), (Some(Tag("li", map[], [a], None, None)), Some(Tag("li", map[], [b], None, None))),
                       TextChanged, (Some(a), Some(b)))}
  {
    var a, b := Text(NavigableString, "a"), Text(NavigableString, "b");
    var li, li' := Tag("li", map[], [a], Some(1), Some(col)), Tag("li", map[], [b], Some(1), Some(col));
    SingleChildPair(Some(ul), Some(ul'), li, li');
    TextPair(Some(li), Some(li'), NavigableString, "a", "b");
    PlainItemKey(a, col);
    PlainItemKey(b, col);
    assert FindDifferences(Some(li), Some(li'), Some(a), Some(b))
        == {Change((None, None), Keys(Some(li), Some(li')), TextChanged, (Some(a), Some(b)))};
  }

  /** An `li` holding one plain string is held in a record without its
      position. */
  lemma PlainItemKey(t: Node, col: int)
    requires t.Text? && t.kind == NavigableString
    ensures Key(Some(Tag("li", map[], [t], Some(1), Some(col)))) == Some(Tag("li", map[], [t], None, None))
  {
    assert ShapeAll([t]) == [t];
  }
}
