/**
 * `generate_markers_dict` and `format_markers_for_display`
 * (pages/4_Markers.py): the marker record built from the saved network and
 * its graph, and the text shown for it.
 */
module Markers {
  import opened PyText
  import opened Sequences
  import opened ConceptGraph
  import opened Branches

  // ---------------------------------------------------------------------
  // generate_markers_dict
  // ---------------------------------------------------------------------

  /** `f"10UG ({', '.join(branch)})"`. */
  function FormatBranch(b: seq<string>): string {
    "10UG (" + Join(", ", b) + ")"
  }

  /** `[f"10UG (...)" for branch in branches if len(branch) > 1]`. */
  function MarkerLines(bs: seq<seq<string>>): seq<string> {
    if bs == [] then []
    else MarkerLines(bs[..|bs| - 1]) + (if |bs[|bs| - 1]| > 1 then [FormatBranch(bs[|bs| - 1])] else [])
  }

  /** `any(len(branch) > 1 for branch in branches)`. */
  predicate AnyLong(bs: seq<seq<string>>) {
    exists b :: b in bs && |b| > 1
  }

  /** The `Branches` entries for `heads`, in their order: a head whose branches include a long one, with its marker lines. */
  function BranchesInfo(g: Graph, heads: seq<string>): seq<(string, seq<string>)>
    requires g.Valid() && forall h :: h in heads ==> h in g.succ
  {
    if heads == [] then []
    else
      var h := heads[|heads| - 1];
      var bs := BranchesFrom(g, [h]);
      BranchesInfo(g, heads[..|heads| - 1]) + (if AnyLong(bs) then [(h, MarkerLines(bs))] else [])
  }

  /** The keys of an ordered dict given as its entries. */
  function Keys<V>(entries: seq<(string, V)>): seq<string> {
    if entries == [] then [] else Keys(entries[..|entries| - 1]) + [entries[|entries| - 1].0]
  }

  /** The record `{"Combinations": ..., "Heads": ..., "Branches": ...}`. */
  datatype Markers = Markers(combinations: seq<string>, heads: seq<string>, branches: seq<(string, seq<string>)>)

  /** `generate_markers_dict(network_data, G)`. */
  function GenerateMarkersDict(data: NetworkData, g: Graph): Markers
    requires g.Valid()
  {
    var heads := FindHeadNodes(g);
    FindHeadNodesSpec(g);
    Markers(NodeIds(NodeList(data)), heads, BranchesInfo(g, heads))
  }

  /** Helper: when every branch is long, the filter keeps them all, formatted in order. */
  lemma {:induction false} MarkerLinesAllLong(bs: seq<seq<string>>)
    requires forall b :: b in bs ==> |b| >= 2
    ensures |MarkerLines(bs)| == |bs|
    ensures forall k :: 0 <= k < |bs| ==> MarkerLines(bs)[k] == FormatBranch(bs[k])
  {
    if bs != [] {
      var init := bs[..|bs| - 1];
      assert bs == init + [bs[|bs| - 1]];
      MarkerLinesAllLong(init);
    }
  }

  /** The entry for a head lists the marker of every branch from it, in search order. */
  ghost predicate FormatsAllBranches(g: Graph, e: (string, seq<string>))
    requires g.Valid()
  {
    && e.0 in g.succ
    && |e.1| == |BranchesFrom(g, [e.0])|
    && forall k :: 0 <= k < |e.1| ==> e.1[k] == FormatBranch(BranchesFrom(g, [e.0])[k])
  }

  /** Helper: the keys of entries with one more entry. */
  lemma KeysSnoc<V>(entries: seq<(string, V)>, e: (string, V))
    ensures Keys(entries + [e]) == Keys(entries) + [e.0]
  {
    assert (entries + [e])[..|entries|] == entries;
  }

  /** Helper: what the entries for `heads` hold. */
  lemma {:induction false} BranchesInfoSpec(g: Graph, heads: seq<string>)
    requires g.Valid() && NoDups(heads)
    requires forall h :: h in heads ==> h in g.succ && IsHead(g, h)
    ensures forall h :: h in Keys(BranchesInfo(g, heads)) ==> h in heads && g.succ[h] != []
    ensures forall h :: h in heads ==> (g.succ[h] != [] ==> h in Keys(BranchesInfo(g, heads)))
    ensures InFirstOccurrenceOrder(Keys(BranchesInfo(g, heads)), heads)
    ensures forall e :: e in BranchesInfo(g, heads) ==> FormatsAllBranches(g, e)
  {
    if heads != [] {
      var init := heads[..|heads| - 1];
      var h := heads[|heads| - 1];
      assert heads == init + [h];
      BranchesInfoSpec(g, init);
      HeadEntry(g, h);
      var before := BranchesInfo(g, init);
      var entry := if AnyLong(BranchesFrom(g, [h])) then [(h, MarkerLines(BranchesFrom(g, [h])))] else [];
      assert BranchesInfo(g, heads) == before + entry;
      if entry != [] {
        KeysSnoc(before, entry[0]);
      } else {
        assert before + entry == before;
      }
      OrderSnoc(Keys(before), init, h);
    }
  }

  /** Helper: a head gets an entry exactly when it has an outgoing edge, and the entry formats every branch. */
  lemma HeadEntry(g: Graph, h: string)
    requires g.Valid() && IsHead(g, h)
    ensures AnyLong(BranchesFrom(g, [h])) <==> g.succ[h] != []
    ensures var bs := BranchesFrom(g, [h]);
      |MarkerLines(bs)| == |bs| && forall k :: 0 <= k < |bs| ==> MarkerLines(bs)[k] == FormatBranch(bs[k])
  {
    var bs := BranchesFrom(g, [h]);
    FindAllBranchesSpec(g, h);
    HasBranches(g, h);
    if bs != [] {
      assert bs[0] in bs;
    }
    MarkerLinesAllLong(bs);
  }

  /**
   * `generate_markers_dict`: `Combinations` lists the id of every node record
   * in input order, repeats kept; `Heads` lists exactly the heads, in node
   * order; `Branches` has, in head order, exactly the heads with an outgoing
   * edge, each with the marker of every branch from it in search order.
   */
  lemma GenerateMarkersDictSpec(data: NetworkData, g: Graph)
    requires g.Valid()
    ensures var m := GenerateMarkersDict(data, g);
      && |m.combinations| == |NodeList(data)|
      && (forall k :: 0 <= k < |NodeList(data)| ==> m.combinations[k] == NodeList(data)[k].id)
      && (forall n :: n in m.heads ==> IsHead(g, n))
      && (forall n :: IsHead(g, n) ==> n in m.heads)
      && InFirstOccurrenceOrder(m.heads, g.nodes)
      && (forall h :: h in Keys(m.branches) ==> IsHead(g, h) && g.succ[h] != [])
      && (forall h :: IsHead(g, h) && g.succ[h] != [] ==> h in Keys(m.branches))
      && InFirstOccurrenceOrder(Keys(m.branches), m.heads)
      && (forall e :: e in m.branches ==> FormatsAllBranches(g, e))
  {
    NodeIdsSpec(NodeList(data));
    FindHeadNodesSpec(g);
    BranchesInfoSpec(g, FindHeadNodes(g));
  }

  // ---------------------------------------------------------------------
  // format_markers_for_display
  // ---------------------------------------------------------------------

  /** A value of the marker record: a list of strings, or a dict from head to list of strings. */
  datatype Value = ListValue(items: seq<string>) | DictValue(entries: seq<(string, seq<string>)>)

  /** The record's items in dict order. */
  function Items(m: Markers): seq<(string, Value)> {
    [("Combinations", ListValue(m.combinations)), ("Heads", ListValue(m.heads)), ("Branches", DictValue(m.branches))]
  }

  /** The rule that ends every section. */
  const Rule: string := "\n---   ---   ---   ---"

  /** What closes every section: the rule, a space and a blank line. */
  const Separator: string := Rule + " \n\n"

  /** One head of a dict value: `f"{head}:\n"` and then its lines. */
  function HeadText(e: (string, seq<string>)): string {
    (e.0 + ":\n") + (Join("\n", e.1) + "\n")
  }

  /** The heads of a dict value in order. */
  function DictText(d: seq<(string, seq<string>)>): string {
    if d == [] then "" else DictText(d[..|d| - 1]) + HeadText(d[|d| - 1])
  }

  /** What a value contributes to its section. */
  function Body(v: Value): string {
    match v
    case ListValue(xs) => Join("\n", xs) + "\n"
    case DictValue(d) => DictText(d)
  }

  /** One section: `f"{key}\n\n"`, the value, and the separator. */
  function Section(item: (string, Value)): string {
    (item.0 + "\n\n") + (Body(item.1) + Separator)
  }

  /** The text before stripping: the sections in dict order. */
  function RawText(items: seq<(string, Value)>): string {
    if items == [] then "" else RawText(items[..|items| - 1]) + Section(items[|items| - 1])
  }

  /** `format_markers_for_display(markers_dict)`, given the dict's items. */
  method FormatMarkersForDisplay(items: seq<(string, Value)>) returns (text: string)
    ensures text == Strip(RawText(items), IsSpace)
  {
    var raw := "";
    for i := 0 to |items|
      invariant raw == RawText(items[..i])
    {
      var key := items[i].0;
      ghost var before := raw;
      raw := raw + (key + "\n\n");
      match items[i].1 {
        case ListValue(xs) =>
          raw := raw + (Join("\n", xs) + "\n");
        case DictValue(d) =>
          for j := 0 to |d|
            invariant raw == (before + (key + "\n\n")) + DictText(d[..j])
          {
            DictTextSnoc(d, j);
            AppendRegroup(before + (key + "\n\n"), DictText(d[..j]), d[j].0 + ":\n", Join("\n", d[j].1) + "\n");
            raw := raw + (d[j].0 + ":\n");
            raw := raw + (Join("\n", d[j].1) + "\n");
          }
          assert d[..|d|] == d;
      }
      raw := raw + Separator;
      AppendRegroup(before, key + "\n\n", Body(items[i].1), Separator);
      RawTextSnoc(items, i);
    }
    assert items[..|items|] == items;
    text := Strip(raw, IsSpace);
  }

  /** Helper: the raw text of one more item. */
  lemma RawTextSnoc(items: seq<(string, Value)>, i: nat)
    requires i < |items|
    ensures RawText(items[..i + 1]) == RawText(items[..i]) + Section(items[i])
  {
    assert items[..i + 1][..i] == items[..i];
  }

  /** Helper: the text of one more head. */
  lemma DictTextSnoc(d: seq<(string, seq<string>)>, j: nat)
    requires j < |d|
    ensures DictText(d[..j + 1]) == DictText(d[..j]) + HeadText(d[j])
  {
    assert d[..j + 1][..j] == d[..j];
  }

  /** The raw text begins with the first key. */
  lemma {:induction false} RawTextFirst(items: seq<(string, Value)>)
    requires items != [] && items[0].0 != []
    ensures |RawText(items)| > 0 && RawText(items)[0] == items[0].0[0]
  {
    var init := items[..|items| - 1];
    if init != [] {
      assert init[0] == items[0];
      RawTextFirst(init);
    }
  }

  /** A section up to its rule, without the blanks that follow. */
  function ClosingSection(item: (string, Value)): string {
    (item.0 + "\n\n") + (Body(item.1) + Rule)
  }

  /** Helper: a section is its closing form and the blanks after the rule. */
  lemma SectionBlanks(item: (string, Value))
    ensures Section(item) == ClosingSection(item) + " \n\n"
  {
    AppendAssoc(Body(item.1), Rule, " \n\n");
    AppendAssoc(item.0 + "\n\n", Body(item.1) + Rule, " \n\n");
  }

  /** Helper: stripping text that ends with a rule and the blanks after it. */
  lemma StripBlanksAfterRule(t: string)
    requires t != [] && !IsSpace(t[0]) && t[|t| - 1] == '-'
    ensures Strip(t + " \n\n", IsSpace) == t
  {
    var junk := " \n\n";
    assert forall i :: 0 <= i < |junk| ==> IsSpace(junk[i]);
    StripTrailing(t, junk, IsSpace);
  }

  /**
   * Stripping removes exactly the blanks after the last rule when the first
   * key does not begin with whitespace: the shown text is every section in
   * dict order, the last one ending with its rule.
   */
  lemma StripRemovesTrailingBlanks(items: seq<(string, Value)>)
    requires items != [] && items[0].0 != [] && !IsSpace(items[0].0[0])
    ensures Strip(RawText(items), IsSpace)
      == RawText(items[..|items| - 1]) + ClosingSection(items[|items| - 1])
  {
    var c := ClosingSection(items[|items| - 1]);
    var t := RawText(items[..|items| - 1]) + c;
    RawTextClosing(items);
    ClosingEndsWithRule(items[|items| - 1]);
    assert t[|t| - 1] == c[|c| - 1];
    RawTextFirst(items);
    assert t[0] == RawText(items)[0];
    StripBlanksAfterRule(t);
  }

  /** Helper: the raw text is the text up to the last rule and the blanks after it. */
  lemma RawTextClosing(items: seq<(string, Value)>)
    requires items != []
    ensures RawText(items)
      == (RawText(items[..|items| - 1]) + ClosingSection(items[|items| - 1])) + " \n\n"
  {
    var x := items[|items| - 1];
    SectionBlanks(x);
    AppendAssoc(RawText(items[..|items| - 1]), ClosingSection(x), " \n\n");
  }

  /** Helper: a closing section ends with the last dash of its rule. */
  lemma ClosingEndsWithRule(x: (string, Value))
    ensures ClosingSection(x) != [] && ClosingSection(x)[|ClosingSection(x)| - 1] == '-'
  {
    var c := ClosingSection(x);
    assert c[|c| - 1] == Rule[|Rule| - 1];
  }

  /**
   * The text shown for a marker record: the `Combinations` and `Heads`
   * sections and then the `Branches` section up to its rule.
   */
  lemma DisplayText(m: Markers)
    ensures Strip(RawText(Items(m)), IsSpace)
      == Section(("Combinations", ListValue(m.combinations)))
       + Section(("Heads", ListValue(m.heads)))
       + ClosingSection(("Branches", DictValue(m.branches)))
  {
    FirstKeyNotBlank(m);
    StripRemovesTrailingBlanks(Items(m));
    FirstTwoSections(m);
  }

  /** Helper: the first key of the record does not begin with whitespace. */
  lemma FirstKeyNotBlank(m: Markers)
    ensures Items(m) != [] && Items(m)[0].0 != [] && !IsSpace(Items(m)[0].0[0])
  {
    assert Items(m)[0].0 == "Combinations";
  }

  /** Helper: the raw text of the first two items, and the last item. */
  lemma FirstTwoSections(m: Markers)
    ensures |Items(m)| == 3
    ensures RawText(Items(m)[..2])
      == Section(("Combinations", ListValue(m.combinations))) + Section(("Heads", ListValue(m.heads)))
    ensures Items(m)[2] == ("Branches", DictValue(m.branches))
  {
    var items := Items(m);
    RawTextSnoc(items, 0);
    RawTextSnoc(items, 1);
    assert items[..0] == [];
  }
}
