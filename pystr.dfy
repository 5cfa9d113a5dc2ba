/**
 * The few operations of Python's `str` that the configuration parser and
 * serialiser rely on: `strip()`, `split(sep)` and `sep.join(...)`, on
 * strings modelled as sequences of characters.
 */
module PyStr {
  import opened Wrappers

  /** The characters `str.strip()` removes (its ASCII and Latin-1 part). */
  predicate IsSpace(c: char) {
    || c == ' ' || c == '\t' || c == '\n' || c == '\r'
    || c == '\U{000B}' || c == '\U{000C}'
    || c == '\U{001C}' || c == '\U{001D}' || c == '\U{001E}' || c == '\U{001F}'
    || c == '\U{0085}' || c == '\U{00A0}'
  }

  /** `s.lstrip()`: drops the leading whitespace and nothing else. */
  function TrimStart(s: string): (r: string)
    ensures |r| <= |s| && r == s[|s| - |r|..]
    ensures forall k :: 0 <= k < |s| - |r| ==> IsSpace(s[k])
    ensures r == [] || !IsSpace(r[0])
  {
    if |s| > 0 && IsSpace(s[0]) then TrimStart(s[1..]) else s
  }

  /** `s.rstrip()`: drops the trailing whitespace and nothing else. */
  function TrimEnd(s: string): (r: string)
    ensures |r| <= |s| && r == s[..|r|]
    ensures forall k :: |r| <= k < |s| ==> IsSpace(s[k])
    ensures r == [] || !IsSpace(r[|r| - 1])
  {
    if |s| > 0 && IsSpace(s[|s| - 1]) then TrimEnd(s[..|s| - 1]) else s
  }

  /** `r` sits in `s` at index `i` with only whitespace around it. */
  ghost predicate StrippedAt(s: string, r: string, i: int) {
    && 0 <= i <= |s| - |r| && r == s[i..i + |r|]
    && (forall k :: 0 <= k < i ==> IsSpace(s[k]))
    && (forall k :: i + |r| <= k < |s| ==> IsSpace(s[k]))
  }

  /**
   * `s.strip()`: the infix of `s` left once the whitespace at both ends is
   * removed; it neither starts nor ends with whitespace.
   */
  function Strip(s: string): (r: string)
    ensures |r| <= |s|
    ensures exists i :: StrippedAt(s, r, i)
    ensures r == [] || (!IsSpace(r[0]) && !IsSpace(r[|r| - 1]))
  {
    var t := TrimStart(s);
    var r := TrimEnd(t);
    var i := |s| - |t|;
    assert StrippedAt(s, r, i);
    r
  }

  /** Stripping a string with no whitespace at either end leaves it as it is. */
  lemma StripUnchanged(s: string)
    requires s == [] || (!IsSpace(s[0]) && !IsSpace(s[|s| - 1]))
    ensures Strip(s) == s
  {
  }

  /** Stripping `s + "\n"` removes exactly the newline when `s` is already stripped and not empty. */
  lemma StripTrailingNewline(s: string)
    requires s != [] && !IsSpace(s[0]) && !IsSpace(s[|s| - 1])
    ensures Strip(s + "\n") == s
  {
    var t := s + "\n";
    assert TrimStart(t) == t;
    assert t[..|t| - 1] == s;
    assert TrimEnd(t) == TrimEnd(s);
  }

  /** `sep` occurs in `s` starting at index `i`. */
  predicate OccursAt(s: string, sep: string, i: int) {
    0 <= i && i + |sep| <= |s| && s[i..i + |sep|] == sep
  }

  /** `sep in s`. */
  predicate Contains(s: string, sep: string) {
    exists i :: 0 <= i <= |s| && OccursAt(s, sep, i)
  }

  lemma OccursAtShift(s: string, sep: string, i: nat)
    requires |s| > 0
    ensures OccursAt(s, sep, i + 1) <==> OccursAt(s[1..], sep, i)
  {
    if i + 1 + |sep| <= |s| {
      assert s[1..][i..i + |sep|] == s[i + 1..i + 1 + |sep|];
    }
  }

  /** A string holding `sep` holds every prefix of `sep`. */
  lemma ContainsPrefix(s: string, pre: string, sep: string)
    requires |pre| <= |sep| && sep[..|pre|] == pre
    ensures Contains(s, sep) ==> Contains(s, pre)
  {
    if Contains(s, sep) {
      var i :| 0 <= i <= |s| && OccursAt(s, sep, i);
      assert s[i..i + |pre|] == s[i..i + |sep|][..|pre|];
      assert OccursAt(s, pre, i);
    }
  }

  /** `s.find(sep)`: the leftmost index at which `sep` occurs, if any. */
  function IndexOf(s: string, sep: string): (r: Option<nat>)
    requires |sep| > 0
    ensures r.Some? ==> OccursAt(s, sep, r.value)
    ensures r.Some? ==> forall j :: 0 <= j < r.value ==> !OccursAt(s, sep, j)
    ensures r.None? ==> !Contains(s, sep)
    decreases |s|
  {
    if |s| < |sep| then None
    else if s[..|sep|] == sep then Some(0)
    else
      var rest := IndexOf(s[1..], sep);
      assert !OccursAt(s, sep, 0);
      assert forall j :: 0 < j ==> (OccursAt(s, sep, j) <==> OccursAt(s[1..], sep, j - 1)) by {
        forall j | 0 < j ensures OccursAt(s, sep, j) <==> OccursAt(s[1..], sep, j - 1) {
          OccursAtShift(s, sep, j - 1);
        }
      }
      match rest
      case None => None
      case Some(i) => Some(i + 1)
  }

  /**
   * `s.split(sep)`: the pieces between the non-overlapping occurrences of
   * `sep`, found left to right. Joining them back with `sep` gives `s`, and
   * no piece contains `sep`.
   */
  function Split(s: string, sep: string): (r: seq<string>)
    requires |sep| > 0
    ensures |r| >= 1
    ensures Join(r, sep) == s
    ensures forall k :: 0 <= k < |r| ==> !Contains(r[k], sep)
    ensures forall k :: 0 <= k < |r| - 1 ==> IndexOf(Join(r[k..], sep), sep) == Some(|r[k]|)
    decreases |s|
  {
    match IndexOf(s, sep)
    case None => [s]
    case Some(i) =>
      var head := s[..i];
      var rest := Split(s[i + |sep|..], sep);
      CutAtFirst(s, sep, i);
      DropHead(head, rest);
      [head] + rest
  }

  /** Cutting `s` at the first occurrence of `sep` leaves a head that holds no `sep`. */
  lemma CutAtFirst(s: string, sep: string, i: nat)
    requires |sep| > 0 && IndexOf(s, sep) == Some(i)
    ensures !Contains(s[..i], sep)
    ensures s == s[..i] + sep + s[i + |sep|..]
  {
    forall j | OccursAt(s[..i], sep, j) ensures false {
      OccursInPrefix(s, sep, i, j);
    }
    CutAround(s, i, i + |sep|);
  }

  /** An occurrence in a prefix of `s` is an occurrence in `s`. */
  lemma OccursInPrefix(s: string, sep: string, m: nat, j: int)
    requires m <= |s| && OccursAt(s[..m], sep, j)
    ensures OccursAt(s, sep, j)
  {
    assert s[j..j + |sep|] == s[..m][j..j + |sep|];
  }

  lemma CutAround<T>(s: seq<T>, i: nat, j: nat)
    requires i <= j <= |s|
    ensures s == s[..i] + s[i..j] + s[j..]
  {
  }

  lemma DropHead<T>(x: T, rest: seq<T>)
    ensures ([x] + rest)[0..] == [x] + rest
    ensures forall k :: 1 <= k <= |rest| ==> ([x] + rest)[k..] == rest[k - 1..]
  {
  }

  /** `sep.join(pieces)`. */
  function Join(pieces: seq<string>, sep: string): string
    decreases |pieces|
  {
    if |pieces| == 0 then ""
    else if |pieces| == 1 then pieces[0]
    else pieces[0] + sep + Join(pieces[1..], sep)
  }

  /** The lines, each followed by a newline: what a writer emitting one line at a time produces. */
  function Terminated(lines: seq<string>): string
    decreases |lines|
  {
    if lines == [] then "" else lines[0] + "\n" + Terminated(lines[1..])
  }

  lemma {:induction false} TerminatedConcat(a: seq<string>, b: seq<string>)
    ensures Terminated(a + b) == Terminated(a) + Terminated(b)
    decreases |a|
  {
    if a == [] {
      assert a + b == b;
    } else {
      assert (a + b)[0] == a[0];
      assert (a + b)[1..] == a[1..] + b;
      TerminatedConcat(a[1..], b);
    }
  }

  /** A non-empty list of lines, each ended by a newline, is the lines joined by newlines plus one final newline. */
  lemma {:induction false} TerminatedIsJoin(lines: seq<string>)
    requires |lines| >= 1
    ensures Terminated(lines) == Join(lines, "\n") + "\n"
    decreases |lines|
  {
    if |lines| > 1 {
      TerminatedIsJoin(lines[1..]);
    }
  }

  lemma OccursAtChar(s: string, c: char, j: int)
    ensures OccursAt(s, [c], j) <==> 0 <= j < |s| && s[j] == c
  {
    if 0 <= j < |s| {
      assert s[j..j + 1] == [s[j]];
    }
  }

  /** For a one-character separator, `sep in s` is membership of that character. */
  lemma ContainsChar(s: string, c: char)
    ensures Contains(s, [c]) <==> c in s
  {
    if c in s {
      var j :| 0 <= j < |s| && s[j] == c;
      OccursAtChar(s, c, j);
    }
    forall j | 0 <= j <= |s| && OccursAt(s, [c], j) ensures c in s {
      OccursAtChar(s, c, j);
    }
  }

  lemma SplitWhole(s: string, sep: string)
    requires |sep| > 0 && !Contains(s, sep)
    ensures Split(s, sep) == [s]
  {
  }

  /**
   * When no occurrence of `sep` starts inside `x`, splitting `x + sep + y`
   * yields `x` and then the pieces of `y`.
   */
  lemma SplitAfterPiece(x: string, sep: string, y: string)
    requires |sep| > 0
    requires forall j :: 0 <= j < |x| ==> !OccursAt(x + sep + y, sep, j)
    ensures Split(x + sep + y, sep) == [x] + Split(y, sep)
  {
    var s := x + sep + y;
    assert s[|x|..|x| + |sep|] == sep;
    assert OccursAt(s, sep, |x|);
    assert IndexOf(s, sep) == Some(|x|);
    assert s[..|x|] == x;
    assert s[|x| + |sep|..] == y;
  }

  /** Splitting on a character undoes joining with it, when no piece holds that character. */
  lemma {:induction false} SplitJoinChar(pieces: seq<string>, c: char)
    requires |pieces| >= 1
    requires forall k :: 0 <= k < |pieces| ==> c !in pieces[k]
    ensures Split(Join(pieces, [c]), [c]) == pieces
    decreases |pieces|
  {
    if |pieces| == 1 {
      ContainsChar(pieces[0], c);
      SplitWhole(pieces[0], [c]);
    } else {
      var x, y := pieces[0], Join(pieces[1..], [c]);
      forall j | 0 <= j < |x| ensures !OccursAt(x + [c] + y, [c], j) {
        OccursAtChar(x + [c] + y, c, j);
        assert (x + [c] + y)[j] == x[j];
      }
      SplitAfterPiece(x, [c], y);
      SplitJoinChar(pieces[1..], c);
    }
  }

  lemma JoinStartsWith(pieces: seq<string>, sep: string)
    requires |pieces| >= 1
    ensures |Join(pieces, sep)| >= |pieces[0]|
    ensures Join(pieces, sep)[..|pieces[0]|] == pieces[0]
  {
  }

  lemma {:induction false} JoinEndsWith(pieces: seq<string>, sep: string)
    requires |pieces| >= 1
    ensures var j, l := Join(pieces, sep), pieces[|pieces| - 1];
            |j| >= |l| && j[|j| - |l|..] == l
    decreases |pieces|
  {
    if |pieces| > 1 {
      JoinEndsWith(pieces[1..], sep);
    }
  }
}
