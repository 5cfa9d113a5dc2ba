/**
 * Saving a configuration and loading the saved text back: the loader
 * reproduces the interface settings and every peer's settings, in order,
 * provided each key and value survives the trip through `strip` and the
 * `" = "` split. Also the rule the loader applies to a key set twice in one
 * section.
 */
module RoundTrip {
  import opened Wrappers
  import opened PyStr
  import opened OrderedDict
  import opened WgPeer
  import opened WgConfig

  /** A key or value that cannot break a line or fake a separator: no newline, no `" ="`, no `"= "`. */
  predicate SafeToken(t: string) {
    '\n' !in t && !Contains(t, " =") && !Contains(t, "= ")
  }

  /**
   * A setting whose `key = value` line loads back as itself: the key does
   * not start with whitespace, the value does not end with it, neither is
   * empty and both are safe tokens.
   */
  predicate SafeItem(item: (string, string)) {
    && item.0 != [] && !IsSpace(item.0[0]) && SafeToken(item.0)
    && item.1 != [] && !IsSpace(item.1[|item.1| - 1]) && SafeToken(item.1)
  }

  /** A settings map the loader reads back unchanged: keys distinct, every item safe. */
  predicate Serialisable(e: Entries) {
    DistinctKeys(e) && forall j :: 0 <= j < |e| ==> SafeItem(e[j])
  }

  // ---------------------------------------------------------------------
  // One setting's line
  // ---------------------------------------------------------------------

  /**
   * A safe setting's line is left alone by `strip`, is none of the lines
   * the loader treats specially, and splits on `" = "` into its key and
   * its value.
   */
  lemma ItemLineParts(item: (string, string))
    requires SafeItem(item)
    ensures Strip(ItemLine(item)) == ItemLine(item)
    ensures ItemLine(item) !in {"[Interface]", "", "[Peer]"}
    ensures Split(ItemLine(item), " = ") == [item.0, item.1]
    ensures '\n' !in ItemLine(item)
  {
    var (k, v) := item;
    ItemLineStripped(k, v);
    ItemLineNoHeader(k, v);
    ItemLineSplits(k, v);
    ItemLineSingle(k, v);
  }

  lemma ItemLineSingle(k: string, v: string)
    requires '\n' !in k && '\n' !in v
    ensures '\n' !in k + " = " + v
  {
    assert forall c :: c in k + " = " + v ==> c in k || c in " = " || c in v;
  }

  /** A line that starts with a key and ends with a value, neither of them with whitespace at that end, is left alone by `strip`. */
  lemma ItemLineStripped(k: string, v: string)
    requires k != [] && !IsSpace(k[0]) && v != [] && !IsSpace(v[|v| - 1])
    ensures Strip(k + " = " + v) == k + " = " + v
  {
    var l := k + " = " + v;
    assert l[0] == k[0] && l[|l| - 1] == v[|v| - 1];
    StripUnchanged(l);
  }

  /** A line holding `" = "` after a non-empty key is neither blank nor a header. */
  lemma ItemLineNoHeader(k: string, v: string)
    requires k != []
    ensures k + " = " + v !in {"[Interface]", "", "[Peer]"}
  {
    var l := k + " = " + v;
    assert l[|k|] == ' ';
    assert ' ' !in "[Interface]" && ' ' !in "[Peer]";
  }

  /** The first `" = "` of a line whose key holds no `" ="` is the one after the key. */
  lemma ItemLineSplits(k: string, v: string)
    requires !Contains(k, " =") && !Contains(v, " =")
    ensures Split(k + " = " + v, " = ") == [k, v]
  {
    KeyHoldsNoSeparator(k, v);
    SplitAfterPiece(k, " = ", v);
    ContainsPrefix(v, " =", " = ");
    SplitWhole(v, " = ");
  }

  /** No `" = "` of `k + " = " + v` starts inside a key that holds no `" ="`. */
  lemma KeyHoldsNoSeparator(k: string, v: string)
    requires !Contains(k, " =")
    ensures forall j :: 0 <= j < |k| ==> !OccursAt(k + " = " + v, " = ", j)
  {
    var l := k + " = " + v;
    forall j | 0 <= j < |k| ensures !OccursAt(l, " = ", j) {
      if j + 2 <= |k| {
        assert !OccursAt(k, " =", j);
        assert l[j..j + 2] == k[j..j + 2];
        assert l[j..j + 3][..2] == l[j..j + 2];
      } else {
        assert l[j + 1] == ' ';
        assert l[j..j + 3][1] == ' ';
      }
    }
  }

  // ---------------------------------------------------------------------
  // A section's settings, read back
  // ---------------------------------------------------------------------

  /** The settings of the active section of `st`. */
  function Active(st: ParseState): Entries
    requires Consistent(st) && !st.sec.NoSection?
  {
    match st.sec
    case InInterface => st.iface
    case InPeer(i) => st.peers[i]
  }

  /** `for k, v in e: sec[k] = v` into the active section of `st`; the other sections stay as they were. */
  function AssignAll(st: ParseState, e: Entries): (r: ParseState)
    requires Consistent(st) && !st.sec.NoSection?
    ensures Consistent(r) && r.sec == st.sec && |r.peers| == |st.peers|
    ensures Active(r) == PutAll(Active(st), e)
    ensures st.sec.InInterface? ==> r.peers == st.peers
    ensures st.sec.InPeer? ==>
              && r.iface == st.iface
              && forall j :: 0 <= j < |st.peers| && j != st.sec.index ==> r.peers[j] == st.peers[j]
  {
    match st.sec
    case InInterface => st.(iface := PutAll(st.iface, e))
    case InPeer(i) => st.(peers := st.peers[i := PutAll(st.peers[i], e)])
  }

  /**
   * While a section is active, the lines of safe settings are assigned
   * into it one after the other, whatever their keys; nothing fails and
   * the section stays active.
   */
  lemma {:induction false} SectionLinesAssign(st: ParseState, e: Entries)
    requires Consistent(st) && !st.sec.NoSection?
    requires forall j :: 0 <= j < |e| ==> SafeItem(e[j])
    ensures ParseLines(st, ItemLines(e)) == Success(AssignAll(st, e))
    decreases |e|
  {
    if e != [] {
      SectionLineStep(st, e);
      SectionLinesAssign(Assign(st, e[0].0, e[0].1), e[1..]);
      AssignAllStep(st, e);
    } else {
      AssignNothing(st);
      assert ItemLines(e) == [];
    }
  }

  /** The first setting's line is assigned into the active section, and loading goes on with the rest. */
  lemma SectionLineStep(st: ParseState, e: Entries)
    requires Consistent(st) && !st.sec.NoSection? && e != [] && SafeItem(e[0])
    ensures ParseLines(st, ItemLines(e)) == ParseLines(Assign(st, e[0].0, e[0].1), ItemLines(e[1..]))
  {
    StepItem(st, e[0]);
    ItemLinesCons(e);
    ParseLinesCons(st, ItemLine(e[0]), ItemLines(e[1..]));
  }

  lemma ItemLinesCons(e: Entries)
    requires e != []
    ensures ItemLines(e) == [ItemLine(e[0])] + ItemLines(e[1..])
  {
    assert forall j :: 0 <= j < |e| ==> ItemLines(e)[j] == ([ItemLine(e[0])] + ItemLines(e[1..]))[j];
  }

  /** Assigning no settings changes nothing. */
  lemma AssignNothing(st: ParseState)
    requires Consistent(st) && !st.sec.NoSection?
    ensures AssignAll(st, []) == st
  {
    if st.sec.InPeer? {
      assert st.peers[st.sec.index := st.peers[st.sec.index]] == st.peers;
    }
  }

  /** The loader's turn on a safe setting's line assigns it into the active section. */
  lemma StepItem(st: ParseState, item: (string, string))
    requires Consistent(st) && !st.sec.NoSection? && SafeItem(item)
    ensures Step(st, ItemLine(item)) == Success(Assign(st, item.0, item.1))
  {
    ItemLineParts(item);
  }

  /** Assigning a run of settings is assigning the first, then the rest. */
  lemma AssignAllStep(st: ParseState, e: Entries)
    requires Consistent(st) && !st.sec.NoSection? && e != []
    ensures AssignAll(Assign(st, e[0].0, e[0].1), e[1..]) == AssignAll(st, e)
  {
    match st.sec
    case InInterface =>
    case InPeer(i) =>
      var ps := st.peers;
      assert ps[i := Put(ps[i], e[0].0, e[0].1)][i := PutAll(Put(ps[i], e[0].0, e[0].1), e[1..])]
          == ps[i := PutAll(ps[i], e)];
  }

  /**
   * The lines of safe settings, read into whichever section is active,
   * assign each key in turn: nothing fails, no other section changes, the
   * section keeps its old keys in their places and gains the new ones in
   * the order they first appear (a key given twice keeps the place of its
   * first line), each key set by the lines holds the value of its last
   * line, and no key repeats.
   */
  lemma SectionLinesOverwrite(st: ParseState, e: Entries)
    requires Consistent(st) && !st.sec.NoSection? && DistinctKeys(Active(st))
    requires forall j :: 0 <= j < |e| ==> SafeItem(e[j])
    ensures var r := ParseLines(st, ItemLines(e));
            && r.Success? && r.value.sec == st.sec && |r.value.peers| == |st.peers|
            && (st.sec.InInterface? ==> r.value.peers == st.peers)
            && (st.sec.InPeer? ==>
                  && r.value.iface == st.iface
                  && forall j :: 0 <= j < |st.peers| && j != st.sec.index ==> r.value.peers[j] == st.peers[j])
            && Keys(Active(r.value)) == Keys(Active(st)) + NewKeys(Keys(Active(st)), Keys(e))
            && DistinctKeys(Active(r.value))
            && (forall k :: k in Keys(e) ==> Lookup(Active(r.value), k) == LastValue(e, k))
            && (forall k :: k !in Keys(e) ==> Lookup(Active(r.value), k) == Lookup(Active(st), k))
  {
    SectionLinesAssign(st, e);
    PutAllKeys(Active(st), e);
    forall k {
      PutAllLookup(Active(st), e, k);
    }
  }

  /** A section read back from the lines of a serialisable map, into an empty section, is that map. */
  lemma SectionReadBack(st: ParseState, e: Entries)
    requires Consistent(st) && Serialisable(e)
    requires st.sec.InInterface? ==> st.iface == []
    requires st.sec.InPeer? ==> st.peers[st.sec.index] == []
    requires !st.sec.NoSection?
    ensures ParseLines(st, ItemLines(e)) == Success(
              match st.sec
              case InInterface => st.(iface := e)
              case InPeer(i) => st.(peers := st.peers[i := e]))
  {
    SectionLinesAssign(st, e);
    assert [] + e == e;
    PutAllFresh([], e);
  }

  // ---------------------------------------------------------------------
  // The whole text as lines
  // ---------------------------------------------------------------------

  /** No line of a serialisable configuration holds a newline. */
  lemma {:induction false} PeersLinesSingle(ps: seq<Entries>)
    requires forall j :: 0 <= j < |ps| ==> Serialisable(ps[j])
    ensures forall k :: 0 <= k < |PeersLines(ps)| ==> '\n' !in PeersLines(ps)[k]
    decreases |ps|
  {
    if ps != [] {
      var init, p := ps[..|ps| - 1], ps[|ps| - 1];
      PeersLinesSingle(init);
      ItemLinesSingle(p);
    }
  }

  lemma ItemLinesSingle(e: Entries)
    requires Serialisable(e)
    ensures forall k :: 0 <= k < |ItemLines(e)| ==> '\n' !in ItemLines(e)[k]
  {
    forall k | 0 <= k < |e| ensures '\n' !in ItemLines(e)[k] {
      ItemLineParts(e[k]);
    }
  }

  /** The last line of a serialisable configuration neither is empty nor ends with whitespace. */
  lemma LastLineSolid(iface: Entries, ps: seq<Entries>)
    requires Serialisable(iface) && forall j :: 0 <= j < |ps| ==> Serialisable(ps[j])
    ensures var ls := ConfigLines(iface, ps);
            ls[|ls| - 1] != [] && !IsSpace(ls[|ls| - 1][|ls[|ls| - 1]| - 1])
  {
    var ls := ConfigLines(iface, ps);
    if ps != [] {
      var p := ps[|ps| - 1];
      assert ls[|ls| - 1] == PeerLines(p)[|PeerLines(p)| - 1];
      if p != [] {
        assert ls[|ls| - 1] == ItemLine(p[|p| - 1]);
      }
    } else if iface != [] {
      assert ls[|ls| - 1] == ItemLine(iface[|iface| - 1]);
    }
  }

  /** No line of a serialisable configuration holds a newline. */
  lemma ConfigLinesSingle(iface: Entries, ps: seq<Entries>)
    requires Serialisable(iface) && forall j :: 0 <= j < |ps| ==> Serialisable(ps[j])
    ensures forall k :: 0 <= k < |ConfigLines(iface, ps)| ==> '\n' !in ConfigLines(iface, ps)[k]
  {
    var ls := ConfigLines(iface, ps);
    ItemLinesSingle(iface);
    PeersLinesSingle(ps);
    forall k | 0 <= k < |ls| ensures '\n' !in ls[k] {
      if k == 0 {
      } else if k < 1 + |iface| {
        assert ls[k] == ItemLines(iface)[k - 1];
      } else {
        assert ls[k] == PeersLines(ps)[k - 1 - |iface|];
      }
    }
  }

  /** Stripping the saved text drops its final newline and nothing else. */
  lemma StripConfigText(iface: Entries, ps: seq<Entries>)
    requires Serialisable(iface) && forall j :: 0 <= j < |ps| ==> Serialisable(ps[j])
    ensures Strip(ConfigText(iface, ps)) == Join(ConfigLines(iface, ps), "\n")
  {
    var ls := ConfigLines(iface, ps);
    TerminatedIsJoin(ls);
    var joined := Join(ls, "\n");
    JoinStartsWith(ls, "\n");
    JoinEndsWith(ls, "\n");
    LastLineSolid(iface, ps);
    assert joined[0] == ls[0][0] == '[';
    assert joined[|joined| - 1] == ls[|ls| - 1][|ls[|ls| - 1]| - 1];
    StripTrailingNewline(joined);
  }

  /** Stripping the saved text and splitting it on newlines gives back its lines. */
  lemma TextSplitsIntoLines(iface: Entries, ps: seq<Entries>)
    requires Serialisable(iface) && forall j :: 0 <= j < |ps| ==> Serialisable(ps[j])
    ensures Split(Strip(ConfigText(iface, ps)), "\n") == ConfigLines(iface, ps)
  {
    StripConfigText(iface, ps);
    ConfigLinesSingle(iface, ps);
    SplitJoinChar(ConfigLines(iface, ps), '\n');
  }

  // ---------------------------------------------------------------------
  // Loading the lines back
  // ---------------------------------------------------------------------

  /** A blank line and a `[Peer]` line, loaded from any state, append an empty peer and select it. */
  lemma PeerHeaderLines(st: ParseState, blank: string, header: string, rest: seq<string>)
    requires Consistent(st) && Strip(blank) == "" && Strip(header) == "[Peer]"
    ensures ParseLines(st, [blank, header] + rest) == ParseLines(ParseState(st.iface, st.peers + [[]], InPeer(|st.peers|)), rest)
  {
    assert [blank, header] + rest == [blank] + ([header] + rest);
    BlankLineDeselects(st, blank, [header] + rest);
    PeerLineAppends(st.(sec := NoSection), header, rest);
  }

  /** One peer's block, loaded from any state, appends that peer and leaves it selected. */
  lemma PeerBlockReadBack(st: ParseState, p: Entries)
    requires Consistent(st) && Serialisable(p)
    ensures ParseLines(st, PeerLines(p)) == Success(ParseState(st.iface, st.peers + [p], InPeer(|st.peers|)))
  {
    var open := ParseState(st.iface, st.peers + [[]], InPeer(|st.peers|));
    assert ParseLines(st, PeerLines(p)) == ParseLines(open, ItemLines(p)) by {
      StripUnchanged("");
      StripUnchanged("[Peer]");
      PeerHeaderLines(st, "", "[Peer]", ItemLines(p));
    }
    assert ParseLines(open, ItemLines(p)) == Success(ParseState(st.iface, st.peers + [p], InPeer(|st.peers|))) by {
      SectionReadBack(open, p);
      assert (st.peers + [[]])[|st.peers| := p] == st.peers + [p];
    }
  }

  lemma AppendLast<T>(a: seq<T>, b: seq<T>)
    requires b != []
    ensures (a + b[..|b| - 1]) + [b[|b| - 1]] == a + b
  {
    assert b == b[..|b| - 1] + [b[|b| - 1]];
  }

  /**
   * The peers' blocks, loaded from any state, append exactly those peers
   * and leave the interface alone.
   */
  lemma {:induction false} PeersReadBack(st: ParseState, ps: seq<Entries>)
    requires Consistent(st)
    requires forall j :: 0 <= j < |ps| ==> Serialisable(ps[j])
    ensures var r := ParseLines(st, PeersLines(ps));
            r.Success? && r.value.iface == st.iface && r.value.peers == st.peers + ps
    decreases |ps|
  {
    if ps == [] {
      assert st.peers + ps == st.peers;
    } else {
      var init, p := ps[..|ps| - 1], ps[|ps| - 1];
      PeersReadBack(st, init);
      var mid := ParseLines(st, PeersLines(init)).value;
      assert ParseLines(st, PeersLines(ps)) == ParseLines(mid, PeerLines(p)) by {
        ParseLinesConcat(st, PeersLines(init), PeerLines(p));
      }
      PeerBlockReadBack(mid, p);
      AppendLast(st.peers, ps);
    }
  }

  /** The saved text loads as its lines after the `[Interface]` header, with the interface selected. */
  lemma TextLoadsAsLines(iface: Entries, ps: seq<Entries>)
    requires Serialisable(iface) && forall j :: 0 <= j < |ps| ==> Serialisable(ps[j])
    ensures ParseText(Empty(), ConfigText(iface, ps)) ==
              ParseLines(ParseState([], [], InInterface), ItemLines(iface) + PeersLines(ps))
  {
    var header, rest := "[Interface]", ItemLines(iface) + PeersLines(ps);
    assert ParseText(Empty(), ConfigText(iface, ps)) == ParseLines(Empty(), [header] + rest) by {
      TextSplitsIntoLines(iface, ps);
      AppendAssoc([header], ItemLines(iface), PeersLines(ps));
    }
    HeaderSelects(header, rest);
  }

  /** The `[Interface]` header as the first line selects the interface of the fresh configuration. */
  lemma HeaderSelects(header: string, rest: seq<string>)
    requires header == "[Interface]"
    ensures ParseLines(Empty(), [header] + rest) == ParseLines(ParseState([], [], InInterface), rest)
  {
    StripUnchanged(header);
    InterfaceLineSelects(Empty(), header, rest);
  }

  /** The interface's lines, loaded while the interface is selected, fill it and hand over to the peers' lines. */
  lemma InterfaceReadBack(iface: Entries, rest: seq<string>)
    requires Serialisable(iface)
    ensures ParseLines(ParseState([], [], InInterface), ItemLines(iface) + rest) ==
              ParseLines(ParseState(iface, [], InInterface), rest)
  {
    var start := ParseState([], [], InInterface);
    ParseLinesConcat(start, ItemLines(iface), rest);
    SectionReadBack(start, iface);
  }

  /**
   * Loading `str(config)` into a fresh configuration gives back its
   * interface settings and each peer's settings, in order, when every map
   * is serialisable.
   */
  lemma LoadAfterSerialise(iface: Entries, ps: seq<Entries>)
    requires Serialisable(iface) && forall j :: 0 <= j < |ps| ==> Serialisable(ps[j])
    ensures var r := ParseText(Empty(), ConfigText(iface, ps));
            r.Success? && r.value.iface == iface && r.value.peers == ps
  {
    TextLoadsAsLines(iface, ps);
    InterfaceReadBack(iface, PeersLines(ps));
    PeersReadBack(ParseState(iface, [], InInterface), ps);
    assert [] + ps == ps;
  }
}
