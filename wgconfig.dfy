/**
 * A WireGuard configuration file (`wg0.conf`) in memory: one `[Interface]`
 * map, an ordered list of peers and an optional file path; its
 * line-oriented loader, its serialiser, the lookup of a peer by public key
 * and saving. File access is replaced by text: loading takes the file's
 * contents, saving returns what would be written and where.
 */
module WgConfig {
  import opened Wrappers
  import opened PyStr
  import opened OrderedDict
  import opened WgPeer

  /** Python truthiness of an optional string: present and not empty. */
  predicate Truthy(s: Option<string>) {
    s.Some? && s.value != ""
  }

  // ---------------------------------------------------------------------
  // The loader, as a state machine over lines
  // ---------------------------------------------------------------------

  /** The map the loader is filling (`sec`): none, the interface, or the peer at an index. */
  datatype Section = NoSection | InInterface | InPeer(index: nat)

  /** What loading has built so far: the interface items, each peer's items, and the active section. */
  datatype ParseState = ParseState(iface: Entries, peers: seq<Entries>, sec: Section)

  /** The exceptions loading raises. */
  datatype LoadError =
      /** `ValueError`: the line does not split on `" = "` into exactly two pieces. */
    | MalformedLine(line: string)
      /** `TypeError`: a well-formed `key = value` line while no section is active. */
    | NoActiveSection(line: string)

  /** A section index always names an existing peer. */
  predicate Consistent(st: ParseState) {
    st.sec.InPeer? ==> st.sec.index < |st.peers|
  }

  /** Every map built so far holds each key once. */
  predicate KeysDistinct(st: ParseState) {
    DistinctKeys(st.iface) && forall j :: 0 <= j < |st.peers| ==> DistinctKeys(st.peers[j])
  }

  /** The state before the first line: what the loader starts from on a fresh configuration. */
  function Empty(): ParseState {
    ParseState([], [], NoSection)
  }

  /** `sec[key] = value` into the active section; only that section changes. */
  function Assign(st: ParseState, key: string, value: string): (r: ParseState)
    requires Consistent(st) && !st.sec.NoSection?
    ensures Consistent(r) && r.sec == st.sec && |r.peers| == |st.peers|
    ensures KeysDistinct(st) ==> KeysDistinct(r)
    ensures st.sec.InInterface? ==> r.iface == Put(st.iface, key, value) && r.peers == st.peers
    ensures st.sec.InPeer? ==>
              && r.iface == st.iface
              && r.peers == st.peers[st.sec.index := Put(st.peers[st.sec.index], key, value)]
  {
    match st.sec
    case InInterface => st.(iface := Put(st.iface, key, value))
    case InPeer(i) => st.(peers := st.peers[i := Put(st.peers[i], key, value)])
  }

  /**
   * One turn of the loader's loop on a raw line. The line is stripped;
   * `[Interface]` selects the interface, a blank line deselects, `[Peer]`
   * appends an empty peer and selects it. Any other line must split on
   * `" = "` into exactly two pieces (checked first) and then needs an active
   * section to be assigned into.
   */
  function Step(st: ParseState, raw: string): (r: Result<ParseState, LoadError>)
    requires Consistent(st)
    ensures r.Success? ==> Consistent(r.value)
    ensures KeysDistinct(st) && r.Success? ==> KeysDistinct(r.value)
    ensures r.Success? ==> |r.value.peers| == |st.peers| + (if Strip(raw) == "[Peer]" then 1 else 0)
    ensures r.Success? && r.value.sec.InPeer? ==> r.value.sec == st.sec || r.value.sec == InPeer(|st.peers|)
  {
    var line := Strip(raw);
    if line == "[Interface]" then Success(st.(sec := InInterface))
    else if line == "" then Success(st.(sec := NoSection))
    else if line == "[Peer]" then Success(ParseState(st.iface, st.peers + [[]], InPeer(|st.peers|)))
    else Setting(st, line)
  }

  /**
   * A stripped line that is no header and not blank: it must split on
   * `" = "` into exactly a key and a value, and only then is an active
   * section needed to assign into.
   */
  function Setting(st: ParseState, line: string): (r: Result<ParseState, LoadError>)
    requires Consistent(st)
    ensures r.Success? ==> Consistent(r.value) && r.value.sec == st.sec && |r.value.peers| == |st.peers|
    ensures KeysDistinct(st) && r.Success? ==> KeysDistinct(r.value)
    ensures r.Failure? <==> |Split(line, " = ")| != 2 || st.sec.NoSection?
    ensures r.Success? ==>
              && |Split(line, " = ")| == 2 && !st.sec.NoSection?
              && r.value == Assign(st, Split(line, " = ")[0], Split(line, " = ")[1])
  {
    var parts := Split(line, " = ");
    if |parts| != 2 then Failure(MalformedLine(line))
    else if st.sec.NoSection? then Failure(NoActiveSection(line))
    else Success(Assign(st, parts[0], parts[1]))
  }

  /**
   * A line raises exactly when it strips to none of the headers and to
   * something non-blank, and either does not split into a key and a value
   * (`ValueError`, whichever section is active) or arrives while no section
   * is active (`TypeError`).
   */
  lemma StepFailure(st: ParseState, raw: string)
    requires Consistent(st)
    ensures Step(st, raw).Failure? <==>
              && Strip(raw) !in {"[Interface]", "", "[Peer]"}
              && (|Split(Strip(raw), " = ")| != 2 || st.sec.NoSection?)
    ensures Step(st, raw).Failure? ==>
              Step(st, raw).error ==
                if |Split(Strip(raw), " = ")| != 2 then MalformedLine(Strip(raw)) else NoActiveSection(Strip(raw))
  {
  }

  /** The loader's loop over `lines`, stopping at the first line that raises. */
  function ParseLines(st: ParseState, lines: seq<string>): (r: Result<ParseState, LoadError>)
    requires Consistent(st)
    ensures r.Success? ==> Consistent(r.value)
    decreases |lines|
  {
    if lines == [] then Success(st)
    else match Step(st, lines[0])
      case Failure(e) => Failure(e)
      case Success(next) => ParseLines(next, lines[1..])
  }

  /**
   * Loading a file's text: strip it, split it on newlines, run the loop. A
   * successful load appends one peer per `[Peer]` line and keeps every
   * map's keys distinct.
   */
  function ParseText(st: ParseState, text: string): (r: Result<ParseState, LoadError>)
    requires Consistent(st)
    ensures r.Success? ==> Consistent(r.value) && |r.value.peers| == |st.peers| + PeerHeaders(Split(Strip(text), "\n"))
    ensures KeysDistinct(st) && r.Success? ==> KeysDistinct(r.value)
  {
    var lines := Split(Strip(text), "\n");
    ParseLinesPeerCount(st, lines);
    ParseLines(st, lines)
  }

  /** Loading two runs of lines is loading the first and, if that succeeds, the second from where it left off. */
  lemma {:induction false} ParseLinesConcat(st: ParseState, a: seq<string>, b: seq<string>)
    requires Consistent(st)
    ensures ParseLines(st, a + b) ==
              match ParseLines(st, a)
              case Failure(e) => Failure(e)
              case Success(mid) => ParseLines(mid, b)
    decreases |a|
  {
    if a == [] {
      assert a + b == b;
    } else {
      assert (a + b)[0] == a[0] && (a + b)[1..] == a[1..] + b;
      match Step(st, a[0])
      case Failure(e) =>
      case Success(next) => ParseLinesConcat(next, a[1..], b);
    }
  }

  /** A blank line deselects the section. */
  lemma StepBlank(st: ParseState, raw: string)
    requires Consistent(st) && Strip(raw) == ""
    ensures Step(st, raw) == Success(st.(sec := NoSection))
  {
  }

  /** `[Peer]` appends an empty peer and selects it. */
  lemma StepPeerHeader(st: ParseState, raw: string)
    requires Consistent(st) && Strip(raw) == "[Peer]"
    ensures Step(st, raw) == Success(ParseState(st.iface, st.peers + [[]], InPeer(|st.peers|)))
  {
  }

  /** `[Interface]` selects the interface. */
  lemma StepInterfaceHeader(st: ParseState, raw: string)
    requires Consistent(st) && Strip(raw) == "[Interface]"
    ensures Step(st, raw) == Success(st.(sec := InInterface))
  {
  }

  /** A line the loader takes, followed by the rest. */
  lemma ParseLinesCons(st: ParseState, line: string, rest: seq<string>)
    requires Consistent(st) && Step(st, line).Success?
    ensures ParseLines(st, [line] + rest) == ParseLines(Step(st, line).value, rest)
  {
    assert ([line] + rest)[0] == line && ([line] + rest)[1..] == rest;
  }

  /** The loop's turn on line `i`, then the rest. */
  lemma ParseLinesUnfold(st: ParseState, lines: seq<string>, i: nat)
    requires Consistent(st) && i < |lines|
    ensures ParseLines(st, lines[i..]) ==
              match Step(st, lines[i])
              case Failure(e) => Failure(e)
              case Success(next) => ParseLines(next, lines[i + 1..])
  {
    assert lines[i..][0] == lines[i] && lines[i..][1..] == lines[i + 1..];
  }

  /** The number of lines that strip to `[Peer]`. */
  function PeerHeaders(lines: seq<string>): nat
    decreases |lines|
  {
    if lines == [] then 0 else (if Strip(lines[0]) == "[Peer]" then 1 else 0) + PeerHeaders(lines[1..])
  }

  /**
   * A successful load appends exactly one peer per `[Peer]` line, and every
   * map it fills keeps its keys distinct.
   */
  lemma {:induction false} ParseLinesPeerCount(st: ParseState, lines: seq<string>)
    requires Consistent(st)
    ensures ParseLines(st, lines).Success? ==> |ParseLines(st, lines).value.peers| == |st.peers| + PeerHeaders(lines)
    ensures KeysDistinct(st) && ParseLines(st, lines).Success? ==> KeysDistinct(ParseLines(st, lines).value)
    decreases |lines|
  {
    if lines != [] && Step(st, lines[0]).Success? {
      ParseLinesPeerCount(Step(st, lines[0]).value, lines[1..]);
    }
  }

  /** A blank line deselects the section, whatever was active. */
  lemma BlankLineDeselects(st: ParseState, raw: string, rest: seq<string>)
    requires Consistent(st) && Strip(raw) == ""
    ensures ParseLines(st, [raw] + rest) == ParseLines(st.(sec := NoSection), rest)
  {
    assert ([raw] + rest)[1..] == rest;
  }

  /** `[Peer]` appends one empty peer and selects it, whatever was active. */
  lemma PeerLineAppends(st: ParseState, raw: string, rest: seq<string>)
    requires Consistent(st) && Strip(raw) == "[Peer]"
    ensures ParseLines(st, [raw] + rest) == ParseLines(ParseState(st.iface, st.peers + [[]], InPeer(|st.peers|)), rest)
  {
    StepPeerHeader(st, raw);
    ParseLinesCons(st, raw, rest);
  }

  /** `[Interface]` selects the interface again, whatever was active; nothing else changes. */
  lemma InterfaceLineSelects(st: ParseState, raw: string, rest: seq<string>)
    requires Consistent(st) && Strip(raw) == "[Interface]"
    ensures ParseLines(st, [raw] + rest) == ParseLines(st.(sec := InInterface), rest)
  {
    StepInterfaceHeader(st, raw);
    ParseLinesCons(st, raw, rest);
  }

  /**
   * A line that is no header and does not split into exactly a key and a
   * value fails with `ValueError`, whichever section is active: the split
   * happens before the assignment.
   */
  lemma MalformedLineFails(st: ParseState, raw: string, rest: seq<string>)
    requires Consistent(st)
    requires Strip(raw) !in {"[Interface]", "", "[Peer]"} && |Split(Strip(raw), " = ")| != 2
    ensures ParseLines(st, [raw] + rest) == Failure(MalformedLine(Strip(raw)))
  {
  }

  /**
   * A well-formed `key = value` line fails with `TypeError` when no section
   * is active: before the first header, or after a blank line.
   */
  lemma OrphanLineFails(st: ParseState, raw: string, rest: seq<string>)
    requires Consistent(st) && st.sec.NoSection?
    requires Strip(raw) !in {"[Interface]", "", "[Peer]"} && |Split(Strip(raw), " = ")| == 2
    ensures ParseLines(st, [raw] + rest) == Failure(NoActiveSection(Strip(raw)))
  {
  }

  // ---------------------------------------------------------------------
  // The serialiser
  // ---------------------------------------------------------------------

  /** The peers' blocks, one after the other in list order. */
  function PeersText(ps: seq<Entries>): (r: string)
    ensures r == Terminated(PeersLines(ps))
    decreases |ps|
  {
    if ps == [] then ""
    else
      var init, p := ps[..|ps| - 1], ps[|ps| - 1];
      TerminatedConcat(PeersLines(init), PeerLines(p));
      PeersText(init) + PeerText(p)
  }

  /** The saved text is the interface's part followed by the peers' part. */
  lemma ConfigTextParts(iface: Entries, ps: seq<Entries>, head: string, tail: string)
    requires head == "[Interface]\n" + Terminated(ItemLines(iface)) && tail == PeersText(ps)
    ensures head + tail == ConfigText(iface, ps)
  {
  }

  /** Writing one more peer's block extends the text of the first `j` peers by that block. */
  lemma PeersTextStep(ps: seq<Entries>, j: nat)
    requires j < |ps|
    ensures PeersText(ps[..j + 1]) == PeersText(ps[..j]) + PeerText(ps[j])
  {
    assert ps[..j + 1][..j] == ps[..j];
  }

  /** The lines of all peers' blocks, in list order. */
  function PeersLines(ps: seq<Entries>): seq<string>
    decreases |ps|
  {
    if ps == [] then [] else PeersLines(ps[..|ps| - 1]) + PeerLines(ps[|ps| - 1])
  }

  /** The lines of `str(config)`. */
  function ConfigLines(iface: Entries, ps: seq<Entries>): seq<string> {
    ["[Interface]"] + ItemLines(iface) + PeersLines(ps)
  }

  /**
   * `str(config)`: the `[Interface]` header, its `key = value` lines, then
   * every peer's block; that is, its lines, each ended by a newline.
   */
  function ConfigText(iface: Entries, ps: seq<Entries>): (r: string)
    ensures r == Terminated(ConfigLines(iface, ps))
  {
    TerminatedConcat(["[Interface]"], ItemLines(iface));
    TerminatedConcat(["[Interface]"] + ItemLines(iface), PeersLines(ps));
    "[Interface]\n" + Terminated(ItemLines(iface)) + PeersText(ps)
  }

  // ---------------------------------------------------------------------
  // Looking a peer up by public key
  // ---------------------------------------------------------------------

  const PublicKey: string := "PublicKey"

  /** Every peer before index `i` has a `PublicKey`, and none of them equals `public`. */
  ghost predicate PassedBefore(es: seq<Entries>, public: string, i: int) {
    0 <= i <= |es| && forall j :: 0 <= j < i ==> Lookup(es[j], PublicKey).Some? && Lookup(es[j], PublicKey).value != public
  }

  /** Peer `i` is the first whose `PublicKey` equals `public`. */
  ghost predicate FirstMatchAt(es: seq<Entries>, public: string, i: int) {
    0 <= i < |es| && Lookup(es[i], PublicKey) == Some(public) && PassedBefore(es, public, i)
  }

  /** Peer `i` lacks a `PublicKey` and is reached before any match: reading its key raises. */
  ghost predicate MissingKeyAt(es: seq<Entries>, public: string, i: int) {
    0 <= i < |es| && Lookup(es[i], PublicKey).None? && PassedBefore(es, public, i)
  }

  /**
   * `next(peer for peer in peers if peer["PublicKey"] == public)`: the index
   * of the first match, `None` for `StopIteration`, or the `KeyError` of a
   * peer without a `PublicKey` reached before any match.
   */
  function NextMatch(es: seq<Entries>, public: string): (r: Result<Option<nat>, KeyError>)
    ensures r.Success? && r.value.Some? ==> FirstMatchAt(es, public, r.value.value)
    ensures r == Success(None) ==> PassedBefore(es, public, |es|)
    ensures r.Failure? ==> r.error == KeyError(PublicKey) && exists i :: MissingKeyAt(es, public, i)
    decreases |es|
  {
    if es == [] then Success(None)
    else match Lookup(es[0], PublicKey)
      case None =>
        assert MissingKeyAt(es, public, 0);
        Failure(KeyError(PublicKey))
      case Some(v) =>
        if v == public then Success(Some(0))
        else match NextMatch(es[1..], public)
          case Failure(e) =>
            MissingKeyShift(es, public);
            Failure(e)
          case Success(None) => Success(None)
          case Success(Some(i)) => Success(Some(i + 1))
  }

  lemma MissingKeyShift(es: seq<Entries>, public: string)
    requires |es| > 0 && Lookup(es[0], PublicKey).Some? && Lookup(es[0], PublicKey).value != public
    requires exists i :: MissingKeyAt(es[1..], public, i)
    ensures exists i :: MissingKeyAt(es, public, i)
  {
    var i :| MissingKeyAt(es[1..], public, i);
    assert MissingKeyAt(es, public, i + 1);
  }

  /** A peer reached before any match and lacking its key makes the scan raise. */
  lemma {:induction false} MissingKeyRaises(es: seq<Entries>, public: string, i: nat)
    requires MissingKeyAt(es, public, i)
    ensures NextMatch(es, public).Failure?
    decreases i
  {
    if i > 0 {
      PassedShift(es, public, i);
      assert MissingKeyAt(es[1..], public, i - 1);
      MissingKeyRaises(es[1..], public, i - 1);
    }
  }

  /** Past the first peer, the peers before `i` are the peers of the rest before `i - 1`. */
  lemma PassedShift(es: seq<Entries>, public: string, i: nat)
    requires 0 < i < |es| && PassedBefore(es, public, i)
    ensures Lookup(es[0], PublicKey).Some? && Lookup(es[0], PublicKey).value != public
    ensures PassedBefore(es[1..], public, i - 1)
    ensures es[1..][i - 1] == es[i]
  {
    forall j | 0 <= j < i - 1 ensures es[1..][j] == es[j + 1] {}
  }

  /** The scan returns the first match. */
  lemma {:induction false} FirstMatchFound(es: seq<Entries>, public: string, i: nat)
    requires FirstMatchAt(es, public, i)
    ensures NextMatch(es, public) == Success(Some(i))
    decreases i
  {
    if i > 0 {
      PassedShift(es, public, i);
      assert FirstMatchAt(es[1..], public, i - 1);
      FirstMatchFound(es[1..], public, i - 1);
    }
  }

  // ---------------------------------------------------------------------
  // Saving
  // ---------------------------------------------------------------------

  /** `open(None, "w")` raises `TypeError`: no path was given and none is stored. */
  datatype SaveError = NoPath

  /** The file `save` writes: its path and its whole new contents. */
  datatype Written = Written(path: string, contents: string)

  // ---------------------------------------------------------------------
  // The configuration object
  // ---------------------------------------------------------------------

  class WGConfig {
    /** The `[Interface]` settings, oldest first. */
    var interface: Entries
    /** The peers, in file order. */
    var peers: seq<WGPeer>
    /** Where the configuration was read from and is saved to by default. */
    var path: Option<string>

    ghost predicate Valid()
      reads this, peers
    {
      DistinctKeys(interface) && forall j :: 0 <= j < |peers| ==> peers[j].Valid()
    }

    /** The peer at `j` appears nowhere else in the list. */
    ghost predicate Unshared(j: int)
      reads this
    {
      0 <= j < |peers| && forall k :: 0 <= k < |peers| && k != j ==> peers[k] != peers[j]
    }

    /** `sec` is no peer, or the last peer, listed only once: where the loader may assign. */
    ghost predicate Selectable(sec: Section)
      reads this
    {
      sec.InPeer? ==> sec.index == |peers| - 1 && Unshared(sec.index)
    }

    /** Each peer's settings, in peer order. */
    function PeerEntries(): seq<Entries>
      reads this, peers
    {
      seq(|peers|, j requires 0 <= j < |peers| reads this, peers => peers[j].vars)
    }

    /** `WGConfig(path)` before any file is read: nothing in it but the path. */
    constructor(path: Option<string>)
      ensures Valid() && interface == [] && peers == [] && this.path == path
    {
      interface := [];
      peers := [];
      this.path := path;
    }

    /** `self.peers.append(WGPeer())`: one new, empty peer at the end. */
    method AppendPeer() returns (p: WGPeer)
      requires Valid()
      modifies this
      ensures Valid() && fresh(p) && p.vars == []
      ensures peers == old(peers) + [p] && interface == old(interface) && path == old(path)
      ensures PeerEntries() == old(PeerEntries()) + [[]]
    {
      p := new WGPeer();
      peers := peers + [p];
      assert PeerEntries() == old(PeerEntries()) + [[]];
    }

    /**
     * `sec[key] = value` into the active section: the interface map, or the
     * peer at the section's index, which must not appear anywhere else in the
     * list. Exactly that map changes, as `Assign` says.
     */
    method AssignInto(sec: Section, key: string, value: string)
      requires Valid() && !sec.NoSection? && Consistent(ParseState(interface, PeerEntries(), sec))
      requires sec.InPeer? ==> Unshared(sec.index)
      modifies this, if sec.InPeer? then {peers[sec.index]} else {}
      ensures Valid() && peers == old(peers) && path == old(path)
      ensures ParseState(interface, PeerEntries(), sec) == Assign(ParseState(old(interface), old(PeerEntries()), sec), key, value)
    {
      match sec
      case InInterface =>
        SetInInterface(key, value);
      case InPeer(j) =>
        SetInPeer(j, key, value);
    }

    /** `self.interface[key] = value`: only the interface's settings change. */
    method SetInInterface(key: string, value: string)
      requires Valid()
      modifies this
      ensures Valid() && peers == old(peers) && path == old(path)
      ensures interface == Put(old(interface), key, value)
      ensures PeerEntries() == old(PeerEntries())
    {
      interface := Put(interface, key, value);
    }

    /** `peers[j][key] = value` on a peer listed only once: only that peer's settings change. */
    method SetInPeer(j: nat, key: string, value: string)
      requires Valid() && Unshared(j)
      modifies peers[j]
      ensures Valid()
      ensures PeerEntries() == old(PeerEntries())[j := Put(old(PeerEntries())[j], key, value)]
    {
      ghost var before := PeerEntries();
      peers[j].Set(key, value);
      forall k | 0 <= k < |peers| ensures PeerEntries()[k] == before[j := Put(before[j], key, value)][k] {
        if k != j {
          assert peers[k] != peers[j];
        }
      }
    }

    /**
     * One turn of the loader's loop: the line `raw` while `sec` is active.
     * The state it leaves, or the error it raises, is the one `Step` gives.
     * A selected peer is always the last one, appended during this load.
     */
    method LoadLine(raw: string, sec: Section) returns (next: Section, err: Option<LoadError>)
      requires Valid()
      requires Selectable(sec)
      modifies this, if sec.InPeer? && sec.index < |peers| then {peers[sec.index]} else {}
      ensures Valid() && path == old(path)
      ensures |peers| >= old(|peers|) && peers[..old(|peers|)] == old(peers)
      ensures Selectable(next)
      ensures next.InPeer? ==> next == sec || fresh(peers[next.index])
      ensures var r := Step(old(State(sec)), raw);
              && (err.None? <==> r.Success?)
              && (r.Failure? ==> err == Some(r.error))
              && (r.Success? ==> State(next) == r.value)
    {
      next, err := sec, None;
      assert peers[..|peers|] == peers;
      var line := Strip(raw);
      if line == "[Interface]" {
        next := InInterface;
      } else if line == "" {
        next := NoSection;
      } else if line == "[Peer]" {
        var p := AppendPeer();
        next := InPeer(|peers| - 1);
        assert peers[..old(|peers|)] == old(peers);
      } else {
        err := LoadSetting(line, sec);
      }
    }

    /**
     * The loader's turn on a line that is no header and not blank: split it
     * and assign the setting into the active section, or raise as `Setting`
     * says. The section stays as it was.
     */
    method LoadSetting(line: string, sec: Section) returns (err: Option<LoadError>)
      requires Valid()
      requires Selectable(sec)
      modifies this, if sec.InPeer? && sec.index < |peers| then {peers[sec.index]} else {}
      ensures Valid() && path == old(path) && peers == old(peers)
      ensures var r := Setting(old(State(sec)), line);
              && (err.None? <==> r.Success?)
              && (r.Failure? ==> err == Some(r.error))
              && (r.Success? ==> State(sec) == r.value)
    {
      err := None;
      var parts := Split(line, " = ");
      if |parts| != 2 {
        err := Some(MalformedLine(line));
      } else if sec.NoSection? {
        err := Some(NoActiveSection(line));
      } else {
        AssignInto(sec, parts[0], parts[1]);
      }
    }

    /** The loader's state as the state machine sees it, with `sec` active. */
    ghost function State(sec: Section): ParseState
      reads this, peers
    {
      ParseState(interface, PeerEntries(), sec)
    }

    /**
     * One turn of the loader's loop over `lines`, at line `i`: `outcome` is
     * what the state machine makes of the whole text; before the turn it is
     * what the rest of the lines make of the current state, and after it,
     * either what the lines after `i` make of the new state or the error.
     */
    method LoadTurn(lines: seq<string>, i: nat, sec: Section, ghost n0: nat, ghost outcome: Result<ParseState, LoadError>)
        returns (next: Section, err: Option<LoadError>)
      requires i < |lines| && Valid() && n0 <= |peers|
      requires Selectable(sec)
      requires outcome == ParseLines(State(sec), lines[i..])
      modifies this, if sec.InPeer? && sec.index < |peers| then {peers[sec.index]} else {}
      ensures Valid() && path == old(path)
      ensures n0 <= |peers| && peers[..n0] == old(peers[..n0])
      ensures Selectable(next)
      ensures next.InPeer? ==> fresh(peers[next.index]) || (sec.InPeer? && peers[next.index] == old(peers[sec.index]))
      ensures err.None? ==> outcome == ParseLines(State(next), lines[i + 1..])
      ensures err.Some? ==> outcome == Failure(err.value)
    {
      ghost var st := State(sec);
      ghost var r := Step(st, lines[i]);
      assert outcome == if r.Failure? then Failure(r.error) else ParseLines(r.value, lines[i + 1..]) by {
        ParseLinesUnfold(st, lines, i);
      }
      ghost var m := |peers|;
      next, err := LoadLine(lines[i], sec);
      PrefixOfPrefix(peers, n0, m);
      if next.InPeer? && next == sec {
        assert peers[next.index] == old(peers)[sec.index];
      }
    }

    /**
     * The loader's loop over the lines of the file. The settings read are
     * assigned into the existing interface and into freshly appended peers,
     * exactly as the loader's state machine says; the peers already present
     * stay where they are. On failure the error is the one the state machine
     * stops with.
     */
    method LoadLines(lines: seq<string>) returns (err: Option<LoadError>)
      requires Valid()
      modifies this
      ensures Valid() && path == old(path)
      ensures |peers| >= old(|peers|) && peers[..old(|peers|)] == old(peers)
      ensures var r := ParseLines(ParseState(old(interface), old(PeerEntries()), NoSection), lines);
              && (err.None? <==> r.Success?)
              && (r.Failure? ==> err == Some(r.error))
              && (r.Success? ==> interface == r.value.iface && PeerEntries() == r.value.peers)
    {
      ghost var n0 := |peers|;
      ghost var outcome := ParseLines(State(NoSection), lines);
      var sec := NoSection;
      var i := 0;
      err := None;
      while i < |lines| && err.None?
        invariant 0 <= i <= |lines|
        invariant Valid() && path == old(path)
        invariant n0 <= |peers| && peers[..n0] == old(peers)
        invariant Selectable(sec)
        invariant sec.InPeer? ==> fresh(peers[sec.index])
        invariant err.None? ==> outcome == ParseLines(State(sec), lines[i..])
        invariant err.Some? ==> outcome == Failure(err.value)
      {
        sec, err := LoadTurn(lines, i, sec, n0, outcome);
        i := i + 1;
      }
      assert err.None? ==> outcome == Success(State(sec));
    }

    /**
     * `_load_from_file` on the file's text: strip it, split it on newlines
     * and run the loop; the outcome is the state machine's on that text.
     */
    method LoadFromText(text: string) returns (err: Option<LoadError>)
      requires Valid()
      modifies this
      ensures Valid() && path == old(path)
      ensures |peers| >= old(|peers|) && peers[..old(|peers|)] == old(peers)
      ensures var r := ParseText(ParseState(old(interface), old(PeerEntries()), NoSection), text);
              && (err.None? <==> r.Success?)
              && (r.Failure? ==> err == Some(r.error))
              && (r.Success? ==> interface == r.value.iface && PeerEntries() == r.value.peers)
    {
      var lines := Split(Strip(text), "\n");
      err := LoadLines(lines);
    }

    /**
     * `str(config)`: `[Interface]`, one `key = value` line per interface
     * setting in insertion order, then each peer's own text in list order.
     * It reads the configuration and changes nothing.
     */
    method ToString() returns (s: string)
      ensures s == ConfigText(interface, PeerEntries())
    {
      s := "[Interface]\n";
      for i := 0 to |interface|
        invariant s == "[Interface]\n" + Terminated(ItemLines(interface[..i]))
      {
        var (key, val) := interface[i];
        TerminatedItemsStep(interface, i);
        s := s + key + " = " + val + "\n";
      }
      assert interface[..|interface|] == interface;
      var joined := JoinPeers();
      ConfigTextParts(interface, PeerEntries(), s, joined);
      s := s + joined;
    }

    /** `"".join(str(peer) for peer in self.peers)`: every peer's block, in list order. */
    method JoinPeers() returns (joined: string)
      ensures joined == PeersText(PeerEntries())
    {
      joined := "";
      ghost var es := PeerEntries();
      for j := 0 to |peers|
        invariant joined == PeersText(es[..j])
      {
        var text := peers[j].ToString();
        PeersTextStep(es, j);
        joined := joined + text;
      }
      assert es[..|peers|] == es;
    }

    /**
     * `find_peer(public)` as written: the result of `next(...)` is dropped,
     * so it never returns a peer. It raises `KeyError` exactly when `public`
     * is truthy and a peer lacking `PublicKey` is reached before any match.
     */
    function FindPeer(public: Option<string>): (r: Result<Option<WGPeer>, KeyError>)
      reads this, peers
      ensures r.Success? ==> r.value.None?
      ensures r.Failure? <==> Truthy(public) && exists i :: MissingKeyAt(PeerEntries(), public.value, i)
      ensures r.Failure? ==> r.error == KeyError(PublicKey)
    {
      if Truthy(public) then
        match NextMatch(PeerEntries(), public.value)
        case Failure(e) => Failure(e)
        case Success(_) =>
          assert forall i :: !MissingKeyAt(PeerEntries(), public.value, i) by {
            forall i | MissingKeyAt(PeerEntries(), public.value, i) ensures false {
              MissingKeyRaises(PeerEntries(), public.value, i);
            }
          }
          Success(None)
      else Success(None)
    }

    /**
     * `find_peer(public)` with the `next(...)` result returned: the first
     * peer whose `PublicKey` equals `public`, `None` when `public` is falsy
     * or no peer matches; it raises exactly when `FindPeer` does.
     */
    function FindPeerFirstMatch(public: Option<string>): (r: Result<Option<WGPeer>, KeyError>)
      reads this, peers
      ensures r.Success? && r.value.Some? ==>
                Truthy(public) && exists i :: 0 <= i < |peers| && FirstMatchAt(PeerEntries(), public.value, i) && r.value.value == peers[i]
      ensures r == Success(None) <==> !Truthy(public) || PassedBefore(PeerEntries(), public.value, |peers|)
      ensures r.Failure? <==> FindPeer(public).Failure?
    {
      if Truthy(public) then
        match NextMatch(PeerEntries(), public.value)
        case Failure(e) => Failure(e)
        case Success(None) => Success(None)
        case Success(Some(i)) => Success(Some(peers[i]))
      else Success(None)
    }

    /**
     * `save(path)`: the file written is `path` when truthy, else the stored
     * path, and it receives `str(self)` whole. With neither, `open(None)`
     * raises.
     */
    method Save(path: Option<string>) returns (r: Result<Written, SaveError>)
      ensures r.Success? <==> Truthy(path) || this.path.Some?
      ensures r.Success? ==> r.value.path == if Truthy(path) then path.value else this.path.value
      ensures r.Success? ==> r.value.contents == ConfigText(interface, PeerEntries())
      ensures r.Failure? ==> r.error == NoPath
    {
      var target := path;
      if !Truthy(target) {
        target := this.path;
      }
      if target.None? {
        return Failure(NoPath);
      }
      var contents := ToString();
      return Success(Written(target.value, contents));
    }
  }

  /**
   * `find_peer` drops the peer it finds: where the first peer whose
   * `PublicKey` equals `public` sits at index `i`, it still gives `None`,
   * while returning the `next(...)` result would give that very peer.
   */
  lemma FindPeerDropsMatch(c: WGConfig, public: string, i: nat)
    requires public != "" && FirstMatchAt(c.PeerEntries(), public, i)
    ensures c.FindPeer(Some(public)) == Success(None)
    ensures c.FindPeerFirstMatch(Some(public)) == Success(Some(c.peers[i]))
  {
    FirstMatchFound(c.PeerEntries(), public, i);
  }

  /**
   * `WGConfig(path)`: `existing` is the text of the file at `path` when one
   * exists. With a truthy path and an existing file the configuration is
   * loaded from it and the loader's error, if any, propagates; otherwise it
   * starts empty.
   */
  method Open(path: Option<string>, existing: Option<string>) returns (r: Result<WGConfig, LoadError>)
    ensures r.Success? ==> fresh(r.value) && r.value.Valid() && r.value.path == path
    ensures !(Truthy(path) && existing.Some?) ==> r.Success? && r.value.interface == [] && r.value.peers == []
    ensures Truthy(path) && existing.Some? ==>
              var p := ParseText(Empty(), existing.value);
              && (r.Success? <==> p.Success?)
              && (p.Failure? ==> r.error == p.error)
              && (r.Success? ==> r.value.interface == p.value.iface && r.value.PeerEntries() == p.value.peers)
  {
    var c := new WGConfig(path);
    if Truthy(path) && existing.Some? {
      assert c.PeerEntries() == [];
      var err := c.LoadFromText(existing.value);
      if err.Some? {
        return Failure(err.value);
      }
    }
    return Success(c);
  }
}
