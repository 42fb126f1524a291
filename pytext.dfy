/**
 * Python's `str.strip()` (no argument) and `str.split(sep)` (explicit,
 * non-empty separator) on `string`, as the quiz parser uses them.
 */
module PyText {
  import opened Wrappers

  /** The characters Python's `str.isspace()` accepts, which `strip()` removes. */
  predicate IsSpace(c: char) {
    || ('\t' <= c <= '\r')
    || ('\U{1C}' <= c <= '\U{1F}')
    || c == ' ' || c == '\U{85}' || c == '\U{A0}' || c == '\U{1680}'
    || ('\U{2000}' <= c <= '\U{200A}')
    || c == '\U{2028}' || c == '\U{2029}' || c == '\U{202F}' || c == '\U{205F}' || c == '\U{3000}'
  }

  predicate AllSpace(s: string) {
    forall i :: 0 <= i < |s| ==> IsSpace(s[i])
  }

  /** Neither the first nor the last character of `s` is whitespace. */
  predicate Trimmed(s: string) {
    s == [] || (!IsSpace(s[0]) && !IsSpace(s[|s| - 1]))
  }

  /** Scanning forward from `i`, the index of the first non-whitespace character (or `|s|`). */
  function SkipSpaceForward(s: string, i: nat): (a: nat)
    requires i <= |s|
    ensures i <= a <= |s|
    ensures forall k :: i <= k < a ==> IsSpace(s[k])
    ensures a < |s| ==> !IsSpace(s[a])
    decreases |s| - i
  {
    if i < |s| && IsSpace(s[i]) then SkipSpaceForward(s, i + 1) else i
  }

  /** Scanning backward from `j` but not below `lo`, the end of the last non-whitespace character. */
  function SkipSpaceBackward(s: string, lo: nat, j: nat): (b: nat)
    requires lo <= j <= |s|
    ensures lo <= b <= j
    ensures forall k :: b <= k < j ==> IsSpace(s[k])
    ensures b > lo ==> !IsSpace(s[b - 1])
    decreases j
  {
    if j > lo && IsSpace(s[j - 1]) then SkipSpaceBackward(s, lo, j - 1) else j
  }

  /** Start of the text `strip()` keeps: the first non-whitespace character, or `|s|`. */
  function StripStart(s: string): (a: nat)
    ensures a <= |s|
    ensures a < |s| ==> !IsSpace(s[a])
  {
    SkipSpaceForward(s, 0)
  }

  /** End of the text `strip()` keeps: just past its last non-whitespace character. */
  function StripEnd(s: string): (b: nat)
    ensures StripStart(s) <= b <= |s|
    ensures b > StripStart(s) ==> !IsSpace(s[b - 1])
  {
    SkipSpaceBackward(s, StripStart(s), |s|)
  }

  /** `s.strip()`: what is left neither starts nor ends with whitespace. */
  function Strip(s: string): (r: string)
    ensures |r| <= |s| && Trimmed(r)
  {
    var a, b := StripStart(s), StripEnd(s);
    var r := s[a..b];
    assert a < b ==> r[0] == s[a] && r[|r| - 1] == s[b - 1];
    r
  }

  /** `strip()` removes only whitespace, only around the text it keeps, and what it keeps is trimmed. */
  lemma StripShape(s: string)
    ensures 0 <= StripStart(s) <= StripEnd(s) <= |s|
    ensures Strip(s) == s[StripStart(s)..StripEnd(s)]
    ensures AllSpace(s[..StripStart(s)]) && AllSpace(s[StripEnd(s)..])
    ensures Trimmed(Strip(s))
  {
    var a, b := StripStart(s), StripEnd(s);
    assert forall k :: 0 <= k < a ==> s[..a][k] == s[k];
    assert forall k :: 0 <= k < |s| - b ==> s[b..][k] == s[b + k];
  }

  /**
   * `strip()` is characterised independently of how it is computed: whenever
   * `s` is whitespace, then a trimmed core, then whitespace, the core is what
   * `strip()` returns.
   */
  lemma StripUnique(p: string, core: string, q: string)
    requires AllSpace(p) && AllSpace(q) && Trimmed(core)
    ensures Strip(p + core + q) == core
  {
    var s := p + core + q;
    var a, b := StripStart(s), StripEnd(s);
    if core == [] {
      forall k | 0 <= k < |s| ensures IsSpace(s[k]) {
        if k < |p| { assert s[k] == p[k]; } else { assert s[k] == q[k - |p|]; }
      }
      assert a == |s|;
      assert s[a..b] == [];
    } else {
      forall k | 0 <= k < |p| ensures IsSpace(s[k]) { assert s[k] == p[k]; }
      assert s[|p|] == core[0];
      assert a == |p|;
      forall k | |p| + |core| <= k < |s| ensures IsSpace(s[k]) {
        assert s[k] == q[k - |p| - |core|];
      }
      assert s[|p| + |core| - 1] == core[|core| - 1];
      assert b == |p| + |core|;
      assert s[a..b] == core;
    }
  }

  lemma StripIdempotent(s: string)
    ensures Strip(Strip(s)) == Strip(s)
  {
    StripShape(s);
    var c := Strip(s);
    assert [] + c + [] == c;
    StripUnique([], c, []);
  }

  /** `sep` occurs in `s` starting at index `i`. */
  predicate MatchAt(s: string, sep: string, i: int) {
    0 <= i && i + |sep| <= |s| && s[i..i + |sep|] == sep
  }

  /** `s.find(sep)`: the leftmost index where `sep` occurs, if any. */
  function Find(s: string, sep: string): (r: Option<nat>)
    ensures r.Some? ==> MatchAt(s, sep, r.value)
    ensures r.Some? ==> forall j :: 0 <= j < r.value ==> !MatchAt(s, sep, j)
    ensures r.None? ==> forall j :: !MatchAt(s, sep, j)
  {
    if |s| < |sep| then None
    else if s[..|sep|] == sep then Some(0)
    else
      ShiftMatch(s, sep);
      match Find(s[1..], sep)
      case None => None
      case Some(i) => Some(i + 1)
  }

  lemma ShiftMatch(s: string, sep: string)
    requires s != []
    ensures forall j :: 1 <= j ==> (MatchAt(s, sep, j) <==> MatchAt(s[1..], sep, j - 1))
  {
    forall j | 1 <= j ensures MatchAt(s, sep, j) <==> MatchAt(s[1..], sep, j - 1) {
      if j + |sep| <= |s| {
        assert s[1..][j - 1..j - 1 + |sep|] == s[j..j + |sep|];
      }
    }
  }

  /** `sep.join(parts)`. */
  function Join(parts: seq<string>, sep: string): (s: string)
    requires parts != []
  {
    if |parts| == 1 then parts[0] else parts[0] + sep + Join(parts[1..], sep)
  }

  /** `s.split(sep)`: cut at each leftmost, non-overlapping occurrence of `sep`. */
  function Split(s: string, sep: string): (parts: seq<string>)
    requires sep != []
    ensures |parts| == Count(s, sep) + 1
    decreases |s|
  {
    match Find(s, sep)
    case None =>
      CountNoMatch(s, sep);
      [s]
    case Some(i) =>
      CountAtFirstMatch(s, sep, i);
      [s[..i]] + Split(s[i + |sep|..], sep)
  }

  /**
   * What `split` promises: joining the pieces with `sep` gives `s` back, the
   * last piece holds no `sep`, and every other piece is cut at the first `sep`
   * that follows it.
   */
  predicate SplitsAt(s: string, sep: string, parts: seq<string>) {
    && parts != []
    && Join(parts, sep) == s
    && Find(parts[|parts| - 1], sep) == None
    && forall i :: 0 <= i < |parts| - 1 ==> Find(parts[i] + sep, sep) == Some(|parts[i]|)
  }

  lemma {:induction false} SplitSound(s: string, sep: string)
    requires sep != []
    ensures SplitsAt(s, sep, Split(s, sep))
    decreases |s|
  {
    match Find(s, sep)
    case None =>
    case Some(i) =>
      var head, rest := s[..i], s[i + |sep|..];
      SplitSound(rest, sep);
      assert s == head + sep + rest by {
        assert s[i..i + |sep|] == sep;
      }
      FirstMatchOfPrefix(head, sep, rest);
      SplitsAtCons(head, sep, rest, Split(rest, sep));
  }

  /** A piece cut at its first separator, in front of a splitting of the rest, is a splitting of the whole. */
  lemma SplitsAtCons(head: string, sep: string, rest: string, tail: seq<string>)
    requires sep != []
    requires Find(head + sep, sep) == Some(|head|)
    requires SplitsAt(rest, sep, tail)
    ensures SplitsAt(head + sep + rest, sep, [head] + tail)
  {
    var parts := [head] + tail;
    assert parts[1..] == tail;
    forall j | 0 <= j < |parts| - 1 ensures Find(parts[j] + sep, sep) == Some(|parts[j]|) {
      if j > 0 {
        assert parts[j] == tail[j - 1];
      }
    }
    assert parts[|parts| - 1] == tail[|tail| - 1];
  }

  /** If `p` holds no occurrence of `sep`, then in `p + sep + rest` the first one starts at `|p|`. */
  lemma FirstMatchOfPrefix(p: string, sep: string, rest: string)
    requires sep != []
    requires forall j :: 0 <= j < |p| ==> !MatchAt(p + sep + rest, sep, j)
    ensures Find(p + sep + rest, sep) == Some(|p|)
    ensures Find(p + sep, sep) == Some(|p|)
  {
    var s := p + sep + rest;
    assert s[|p|..|p| + |sep|] == sep;
    assert MatchAt(s, sep, |p|);
    assert (p + sep)[|p|..|p| + |sep|] == sep;
    forall j | 0 <= j < |p| ensures !MatchAt(p + sep, sep, j) {
      if MatchAt(p + sep, sep, j) {
        assert (p + sep)[j..j + |sep|] == s[j..j + |sep|];
        assert MatchAt(s, sep, j);
      }
    }
    assert MatchAt(p + sep, sep, |p|);
  }

  /** A splitting with the `SplitsAt` properties is the one `split` returns. */
  lemma {:induction false} SplitUnique(s: string, sep: string, parts: seq<string>)
    requires sep != []
    requires SplitsAt(s, sep, parts)
    ensures parts == Split(s, sep)
    decreases |parts|
  {
    if |parts| == 1 {
      assert Join(parts, sep) == parts[0];
    } else {
      var p := parts[0];
      var rest := Join(parts[1..], sep);
      FirstSplitPiece(p, sep, rest);
      SplitsAtTail(s, sep, parts);
      SplitUnique(rest, sep, parts[1..]);
    }
  }

  /**
   * Joining pieces and splitting again gives the pieces back, provided each
   * piece but the last meets its first separator only at the join, and the last
   * holds none.
   */
  lemma SplitJoin(parts: seq<string>, sep: string)
    requires sep != [] && parts != []
    requires Find(parts[|parts| - 1], sep) == None
    requires forall i :: 0 <= i < |parts| - 1 ==> Find(parts[i] + sep, sep) == Some(|parts[i]|)
    ensures Split(Join(parts, sep), sep) == parts
  {
    SplitUnique(Join(parts, sep), sep, parts);
  }

  /** The first `n` pieces of a split, joined and split again, come back unchanged. */
  lemma SplitPrefixBack(s: string, sep: string, n: nat)
    requires sep != [] && 1 <= n <= |Split(s, sep)|
    ensures Split(Join(Split(s, sep)[..n], sep), sep) == Split(s, sep)[..n]
  {
    SplitSound(s, sep);
    PrefixSplitJoin(s, sep, Split(s, sep), n);
  }

  /** The first `n` pieces of any splitting with the `SplitsAt` properties split back to themselves. */
  lemma PrefixSplitJoin(s: string, sep: string, parts: seq<string>, n: nat)
    requires sep != [] && 1 <= n <= |parts|
    requires SplitsAt(s, sep, parts)
    ensures Split(Join(parts[..n], sep), sep) == parts[..n]
  {
    var head := parts[..n];
    assert Find(head[n - 1], sep) == None by {
      if n < |parts| {
        NoMatchBeforeFirst(parts[n - 1], sep);
      }
    }
    forall i | 0 <= i < n - 1 ensures Find(head[i] + sep, sep) == Some(|head[i]|) {
      assert head[i] == parts[i];
    }
    SplitJoin(head, sep);
  }

  /** Splitting `p + sep + rest`, where `sep` first occurs right after `p`, cuts off `p`. */
  lemma FirstSplitPiece(p: string, sep: string, rest: string)
    requires sep != []
    requires Find(p + sep, sep) == Some(|p|)
    ensures Split(p + sep + rest, sep) == [p] + Split(rest, sep)
  {
    var s := p + sep + rest;
    var ps := p + sep;
    forall j | 0 <= j < |p| ensures !MatchAt(s, sep, j) {
      assert !MatchAt(ps, sep, j);
      assert s[j..j + |sep|] == ps[j..j + |sep|];
    }
    FirstMatchOfPrefix(p, sep, rest);
    assert s[..|p|] == p;
    assert s[|p| + |sep|..] == rest;
  }

  /** The pieces after the first one split what follows the first separator. */
  lemma SplitsAtTail(s: string, sep: string, parts: seq<string>)
    requires sep != []
    requires SplitsAt(s, sep, parts) && |parts| > 1
    ensures SplitsAt(Join(parts[1..], sep), sep, parts[1..])
  {
    var tail := parts[1..];
    assert tail[|tail| - 1] == parts[|parts| - 1];
    forall i | 0 <= i < |tail| - 1
      ensures Find(tail[i] + sep, sep) == Some(|tail[i]|)
    {
      assert tail[i] == parts[i + 1];
    }
  }

  /** A piece cut at the first separator after it holds no separator itself. */
  lemma NoMatchBeforeFirst(p: string, sep: string)
    requires sep != []
    requires Find(p + sep, sep) == Some(|p|)
    ensures Find(p, sep) == None
  {
    forall j | MatchAt(p, sep, j) ensures false {
      assert (p + sep)[j..j + |sep|] == p[j..j + |sep|];
      assert MatchAt(p + sep, sep, j);
    }
  }

  /**
   * `s.count(sep)`: scanning left to right, a match counts and the scan
   * resumes after it; elsewhere the scan moves on by one character.
   */
  function Count(s: string, sep: string): (n: nat)
    requires sep != []
    decreases |s|
  {
    if |s| < |sep| then 0
    else if s[..|sep|] == sep then 1 + Count(s[|sep|..], sep)
    else Count(s[1..], sep)
  }

  /** Characters before the first match do not change the count. */
  lemma {:induction false} CountSkip(s: string, sep: string, i: nat)
    requires sep != [] && i <= |s|
    requires forall j :: 0 <= j < i ==> !MatchAt(s, sep, j)
    ensures Count(s, sep) == Count(s[i..], sep)
    decreases i
  {
    if i > 0 {
      if |s| < |sep| {
        assert |s[i..]| < |sep|;
      } else {
        assert !MatchAt(s, sep, 0);
        ShiftMatch(s, sep);
        forall j | 0 <= j < i - 1 ensures !MatchAt(s[1..], sep, j) {
          assert !MatchAt(s, sep, j + 1);
        }
        CountSkip(s[1..], sep, i - 1);
        assert s[1..][i - 1..] == s[i..];
      }
    }
  }

  /** A string without the separator counts none. */
  lemma CountNoMatch(s: string, sep: string)
    requires sep != [] && Find(s, sep) == None
    ensures Count(s, sep) == 0
  {
    CountSkip(s, sep, |s|);
    assert |s[|s|..]| < |sep|;
  }

  /** The first match counts once, and counting resumes after it. */
  lemma CountAtFirstMatch(s: string, sep: string, i: nat)
    requires sep != [] && Find(s, sep) == Some(i)
    ensures Count(s, sep) == 1 + Count(s[i + |sep|..], sep)
  {
    CountSkip(s, sep, i);
    var t := s[i..];
    assert t[..|sep|] == s[i..i + |sep|] == sep;
    assert t[|sep|..] == s[i + |sep|..];
  }
}
