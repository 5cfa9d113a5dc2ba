/**
 * One `[Peer]` block of a WireGuard configuration: an insertion-ordered
 * map from setting names to values, and the text it serialises to.
 */
module WgPeer {
  import opened Wrappers
  import opened PyStr
  import opened OrderedDict

  /** An item as the serialisers write it, `key = value`, without its newline. */
  function ItemLine(item: (string, string)): string {
    item.0 + " = " + item.1
  }

  /** One `key = value` line per item, in insertion order. */
  function ItemLines(e: Entries): seq<string> {
    seq(|e|, j requires 0 <= j < |e| => ItemLine(e[j]))
  }

  /** The lines of one peer's block: a blank line, `[Peer]`, its settings. */
  function PeerLines(e: Entries): seq<string> {
    ["", "[Peer]"] + ItemLines(e)
  }

  /** The text `str(peer)` yields for a peer holding the items `e`: its lines, each ended by a newline. */
  function PeerText(e: Entries): (r: string)
    ensures r == Terminated(PeerLines(e))
  {
    TerminatedConcat(["", "[Peer]"], ItemLines(e));
    assert Terminated(["", "[Peer]"]) == "\n[Peer]\n" by {
      assert ["", "[Peer]"][1..] == ["[Peer]"];
      assert Terminated(["[Peer]"]) == "[Peer]\n";
    }
    "\n[Peer]\n" + Terminated(ItemLines(e))
  }

  /** Writing one more item line extends the text of the first `i` items by that line. */
  lemma TerminatedItemsStep(e: Entries, i: nat)
    requires i < |e|
    ensures Terminated(ItemLines(e[..i + 1])) == Terminated(ItemLines(e[..i])) + e[i].0 + " = " + e[i].1 + "\n"
  {
    assert ItemLines(e[..i + 1]) == ItemLines(e[..i]) + [ItemLine(e[i])];
    TerminatedConcat(ItemLines(e[..i]), [ItemLine(e[i])]);
    assert Terminated([ItemLine(e[i])]) == ItemLine(e[i]) + "\n";
  }

  class WGPeer {
    /** The peer's settings (`_vars`), oldest first. */
    var vars: Entries

    ghost predicate Valid()
      reads this
    {
      DistinctKeys(vars)
    }

    /** A new peer holds no settings. */
    constructor()
      ensures Valid() && vars == []
    {
      vars := [];
    }

    /**
     * `peer[key] = val`: afterwards `peer[key]` is `val`; an existing key keeps
     * its position, a new one is appended, and no other key changes.
     */
    method Set(key: string, val: string)
      requires Valid()
      modifies this
      ensures Valid()
      ensures vars == Put(old(vars), key, val)
      ensures Get(key) == Success(val)
      ensures forall k :: k != key ==> Get(k) == old(Get(k))
    {
      vars := Put(vars, key, val);
    }

    /** `peer[key]`: the stored value, or `KeyError` for a key never set; there is no default. */
    function Get(key: string): (r: Result<string, KeyError>)
      reads this
      ensures r.Success? <==> key in Keys(vars)
      ensures r.Success? ==> (key, r.value) in vars
      ensures r.Failure? ==> r.error == KeyError(key)
    {
      match Lookup(vars, key)
      case Some(v) => Success(v)
      case None => Failure(KeyError(key))
    }

    /**
     * `str(peer)`: a blank line, the `[Peer]` header, then one `key = value`
     * line per setting in insertion order. It reads the peer and changes nothing.
     */
    method ToString() returns (s: string)
      ensures s == PeerText(vars)
    {
      s := "\n[Peer]\n";
      for i := 0 to |vars|
        invariant s == "\n[Peer]\n" + Terminated(ItemLines(vars[..i]))
      {
        var (key, val) := vars[i];
        TerminatedItemsStep(vars, i);
        s := s + key + " = " + val + "\n";
      }
      assert vars[..|vars|] == vars;
    }
  }
}
