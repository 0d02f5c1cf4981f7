/**
 * The parts of Python's `str` type the exporter relies on: `find`, `split`,
 * `join`, `replace` (with a non-empty pattern) and `strip()` with no argument.
 */
module PyStr {
  import opened Wrappers

  /** `sub` occurs in `s` starting at index `i`. */
  predicate OccursAt(s: string, sub: string, i: nat) {
    i + |sub| <= |s| && s[i..i + |sub|] == sub
  }

  /** Python's `sub in s`. */
  predicate Contains(s: string, sub: string) {
    exists i: nat | i <= |s| :: OccursAt(s, sub, i)
  }

  /** The leftmost occurrence of `sub` in `s` starts at `i`. */
  predicate FirstAt(s: string, sub: string, i: nat) {
    OccursAt(s, sub, i) && forall j: nat :: j < i ==> !OccursAt(s, sub, j)
  }

  /** The scan behind `str.find`: the first occurrence at or after index `i`. */
  function FindFrom(s: string, sub: string, i: nat): (r: Option<nat>)
    requires |sub| > 0
    ensures r.Some? ==> i <= r.value && OccursAt(s, sub, r.value)
    ensures r.Some? ==> forall j: nat :: i <= j < r.value ==> !OccursAt(s, sub, j)
    ensures r.None? ==> forall j: nat :: i <= j ==> !OccursAt(s, sub, j)
    decreases |s| - i
  {
    if |s| < i + |sub| then None
    else if OccursAt(s, sub, i) then Some(i)
    else FindFrom(s, sub, i + 1)
  }

  /** Python's `s.find(sub)`, with `None` for -1: the leftmost occurrence, if any. */
  function Find(s: string, sub: string): (r: Option<nat>)
    requires |sub| > 0
    ensures r.Some? ==> FirstAt(s, sub, r.value)
    ensures r.None? <==> !Contains(s, sub)
  {
    FindFrom(s, sub, 0)
  }

  /** `Find` returns exactly the leftmost occurrence. */
  lemma FindFirst(s: string, sub: string, i: nat)
    requires |sub| > 0 && FirstAt(s, sub, i)
    ensures Find(s, sub) == Some(i)
  {
    assert Contains(s, sub);
  }

  /** Occurrences in `s[1..]` are the occurrences in `s` shifted one to the left. */
  lemma OccursInTail(s: string, sub: string, i: nat)
    requires |s| > 0
    ensures OccursAt(s, sub, i + 1) <==> OccursAt(s[1..], sub, i)
  {
    if i + 1 + |sub| <= |s| {
      assert s[i + 1..i + 1 + |sub|] == s[1..][i..i + |sub|];
    }
  }

  /** An occurrence in `a` is one in `a + b` at the same place. */
  lemma OccursInPrefix(a: string, b: string, sub: string, i: nat)
    requires i + |sub| <= |a|
    ensures OccursAt(a + b, sub, i) <==> OccursAt(a, sub, i)
  {
    assert (a + b)[i..i + |sub|] == a[i..i + |sub|];
  }

  /** Python's `sep.join(parts)`. */
  function JoinWith(sep: string, parts: seq<string>): string
    requires |parts| > 0
  {
    if |parts| == 1 then parts[0] else parts[0] + sep + JoinWith(sep, parts[1..])
  }

  /**
   * `parts` is what splitting `s` at the leftmost non-overlapping occurrences
   * of `sep` gives: joining them with `sep` gives `s` back, the `sep` after
   * each piece but the last is the leftmost occurrence in that piece followed
   * by `sep`, and the last piece does not contain `sep`.
   */
  predicate IsSplitOf(s: string, sep: string, parts: seq<string>) {
    && |parts| > 0
    && JoinWith(sep, parts) == s
    && (forall k :: 0 <= k < |parts| - 1 ==> FirstAt(parts[k] + sep, sep, |parts[k]|))
    && !Contains(parts[|parts| - 1], sep)
  }

  /** Python's `s.split(sep)` for a non-empty separator. */
  function Split(s: string, sep: string): (parts: seq<string>)
    requires |sep| > 0
    ensures |parts| > 0
    decreases |s|
  {
    match Find(s, sep)
    case None => [s]
    case Some(i) => [s[..i]] + Split(s[i + |sep|..], sep)
  }

  /** `Split` splits at the leftmost non-overlapping occurrences. */
  lemma {:induction false} SplitIsSplit(s: string, sep: string)
    requires |sep| > 0
    ensures IsSplitOf(s, sep, Split(s, sep))
    decreases |s|
  {
    match Find(s, sep)
    case None =>
    case Some(i) =>
      var rest := Split(s[i + |sep|..], sep);
      SplitIsSplit(s[i + |sep|..], sep);
      LeftmostPiece(s, sep, i);
      assert s == s[..i] + sep + s[i + |sep|..];
      var parts := [s[..i]] + rest;
      assert parts[1..] == rest;
      forall k | 1 <= k < |parts| - 1 ensures FirstAt(parts[k] + sep, sep, |parts[k]|) {
        assert parts[k] == rest[k - 1];
      }
  }

  /** If the leftmost occurrence of `sep` in `s` is at `i`, it is also leftmost in `s[..i] + sep`. */
  lemma LeftmostPiece(s: string, sep: string, i: nat)
    requires FirstAt(s, sep, i)
    ensures FirstAt(s[..i] + sep, sep, i)
  {
    var p := s[..i] + sep;
    assert s == p + s[i + |sep|..];
    OccursInPrefix(p, s[i + |sep|..], sep, i);
    forall j: nat | j < i ensures !OccursAt(p, sep, j) {
      OccursInPrefix(p, s[i + |sep|..], sep, j);
    }
  }

  /** A leftmost occurrence in `a` stays leftmost when `a` is extended. */
  lemma FirstExtends(a: string, b: string, sep: string, i: nat)
    requires FirstAt(a, sep, i)
    ensures FirstAt(a + b, sep, i)
  {
    OccursInPrefix(a, b, sep, i);
    forall j: nat | j < i ensures !OccursAt(a + b, sep, j) {
      OccursInPrefix(a, b, sep, j);
    }
  }

  /**
   * Python's `s.replace(target, replacement)` for a non-empty target: every
   * leftmost non-overlapping occurrence of `target`, scanning left to right,
   * is replaced.
   */
  function Replace(s: string, target: string, replacement: string): string
    requires |target| > 0
    decreases |s|
  {
    if |s| < |target| then s
    else if s[..|target|] == target then replacement + Replace(s[|target|..], target, replacement)
    else [s[0]] + Replace(s[1..], target, replacement)
  }

  /** `s[1..]` contains `sub` only if `s` does. */
  lemma ContainsTail(s: string, sub: string)
    requires |s| > 0 && !Contains(s, sub)
    ensures !Contains(s[1..], sub)
  {
    forall i: nat | i <= |s[1..]| ensures !OccursAt(s[1..], sub, i) {
      OccursInTail(s, sub, i);
    }
  }

  /** A string that does not contain the target is left unchanged. */
  lemma {:induction false} ReplaceWithoutMatch(s: string, target: string, replacement: string)
    requires |target| > 0 && !Contains(s, target)
    ensures Replace(s, target, replacement) == s
    decreases |s|
  {
    if |s| >= |target| {
      assert !OccursAt(s, target, 0);
      assert s[..|target|] != target;
      ContainsTail(s, target);
      ReplaceWithoutMatch(s[1..], target, replacement);
    }
  }

  /** With a one-character target and a one-character replacement, `replace` maps each character. */
  lemma {:induction false} ReplaceChar(s: string, a: char, b: char)
    ensures |Replace(s, [a], [b])| == |s|
    ensures forall i :: 0 <= i < |s| ==> Replace(s, [a], [b])[i] == (if s[i] == a then b else s[i])
    decreases |s|
  {
    if |s| > 0 {
      ReplaceChar(s[1..], a, b);
      assert s[..1] == [s[0]];
      var r := Replace(s, [a], [b]);
      assert r == [if s[0] == a then b else s[0]] + Replace(s[1..], [a], [b]);
    }
  }

  /** Replacing with something no longer than the target never lengthens the string. */
  lemma {:induction false} ReplaceShrinks(s: string, target: string, replacement: string)
    requires |target| > 0 && |replacement| <= |target|
    ensures |Replace(s, target, replacement)| <= |s|
    decreases |s|
  {
    if |s| >= |target| {
      if s[..|target|] == target {
        ReplaceShrinks(s[|target|..], target, replacement);
      } else {
        ReplaceShrinks(s[1..], target, replacement);
      }
    }
  }

  /** Shifting a leftmost occurrence one place right by putting a non-matching character in front. */
  lemma FirstCons(c: char, t: string, sep: string, i: nat)
    requires FirstAt(t, sep, i) && !OccursAt([c] + t, sep, 0)
    ensures FirstAt([c] + t, sep, i + 1)
  {
    var s := [c] + t;
    assert s[1..] == t;
    OccursInTail(s, sep, i);
    forall j: nat | j < i + 1 ensures !OccursAt(s, sep, j) {
      if j > 0 { OccursInTail(s, sep, j - 1); }
    }
  }

  lemma ContainsCons(c: char, t: string, sep: string)
    requires !Contains(t, sep) && !OccursAt([c] + t, sep, 0)
    ensures !Contains([c] + t, sep)
  {
    var s := [c] + t;
    assert s[1..] == t;
    forall j: nat | j <= |s| ensures !OccursAt(s, sep, j) {
      if j > 0 { OccursInTail(s, sep, j - 1); }
    }
  }

  /** Putting a character in front of a string without a match there extends the first piece of its split. */
  lemma SplitCons(s: string, sep: string)
    requires |sep| > 0 && |s| >= |sep| && s[..|sep|] != sep
    ensures var tail := Split(s[1..], sep);
      Split(s, sep) == [[s[0]] + tail[0]] + tail[1..]
  {
    var tail := Split(s[1..], sep);
    SplitIsSplit(s[1..], sep);
    assert s == [s[0]] + s[1..];
    assert !OccursAt(s, sep, 0);
    IsSplitCons(s[0], s[1..], sep, tail);
    SplitUnique(s, sep, [[s[0]] + tail[0]] + tail[1..]);
  }

  lemma IsSplitCons(c: char, t: string, sep: string, tail: seq<string>)
    requires IsSplitOf(t, sep, tail) && !OccursAt([c] + t, sep, 0)
    ensures IsSplitOf([c] + t, sep, [[c] + tail[0]] + tail[1..])
  {
    var parts := [[c] + tail[0]] + tail[1..];
    JoinWithCons(c, tail, sep);
    if |tail| == 1 {
      ContainsCons(c, tail[0], sep);
    } else {
      var rest := JoinWith(sep, tail[1..]);
      assert t == tail[0] + sep + rest;
      var p := [c] + (tail[0] + sep);
      assert p[..|sep|] == ([c] + t)[..|sep|];
      FirstCons(c, tail[0] + sep, sep, |tail[0]|);
      assert p == parts[0] + sep;
      forall k | 1 <= k < |parts| - 1 ensures FirstAt(parts[k] + sep, sep, |parts[k]|) {
        assert parts[k] == tail[k];
      }
    }
  }

  lemma {:induction false} JoinWithCons(c: char, parts: seq<string>, sep: string)
    requires |parts| > 0
    ensures JoinWith(sep, [[c] + parts[0]] + parts[1..]) == [c] + JoinWith(sep, parts)
  {
    var q := [[c] + parts[0]] + parts[1..];
    if |parts| > 1 {
      assert q[1..] == parts[1..];
    }
  }

  /**
   * `replace` and `split`/`join` agree: `s.replace(t, r) == r.join(s.split(t))`.
   * Together with `Split`'s contract and `SplitUnique` this pins down which
   * occurrences are replaced.
   */
  lemma {:induction false} ReplaceIsSplitJoin(s: string, target: string, replacement: string)
    requires |target| > 0
    ensures Replace(s, target, replacement) == JoinWith(replacement, Split(s, target))
    decreases |s|
  {
    if |s| < |target| {
      assert !Contains(s, target);
    } else if s[..|target|] == target {
      ReplaceIsSplitJoin(s[|target|..], target, replacement);
      SplitAtStart(s, target);
    } else {
      ReplaceIsSplitJoin(s[1..], target, replacement);
      SplitCons(s, target);
      JoinWithCons(s[0], Split(s[1..], target), replacement);
    }
  }

  /** A string starting with `sep` splits into an empty piece and the split of the rest. */
  lemma SplitAtStart(s: string, sep: string)
    requires |sep| > 0 && |s| >= |sep| && s[..|sep|] == sep
    ensures Split(s, sep) == [""] + Split(s[|sep|..], sep)
  {
    var rest := Split(s[|sep|..], sep);
    SplitIsSplit(s[|sep|..], sep);
    assert s == sep + s[|sep|..];
    IsSplitAfterSep(s[|sep|..], sep, rest);
    SplitUnique(s, sep, [""] + rest);
  }

  lemma IsSplitAfterSep(t: string, sep: string, rest: seq<string>)
    requires IsSplitOf(t, sep, rest)
    ensures IsSplitOf(sep + t, sep, [""] + rest)
  {
    var parts := [""] + rest;
    assert parts[1..] == rest;
    assert "" + sep == sep;
    assert OccursAt(sep, sep, 0);
    forall k | 1 <= k < |parts| - 1 ensures FirstAt(parts[k] + sep, sep, |parts[k]|) {
      assert parts[k] == rest[k - 1];
    }
  }

  /** `IsSplitOf` characterises `Split`: any decomposition with its properties is the split. */
  lemma {:induction false} SplitUnique(s: string, sep: string, parts: seq<string>)
    requires |sep| > 0 && IsSplitOf(s, sep, parts)
    ensures Split(s, sep) == parts
    decreases |parts|
  {
    if |parts| > 1 {
      var p := parts[0];
      var rest := JoinWith(sep, parts[1..]);
      assert s == (p + sep) + rest;
      FirstExtends(p + sep, rest, sep, |p|);
      FindFirst(s, sep, |p|);
      assert s[|p| + |sep|..] == rest;
      assert s[..|p|] == p;
      assert IsSplitOf(rest, sep, parts[1..]) by {
        forall k | 0 <= k < |parts[1..]| - 1
          ensures FirstAt(parts[1..][k] + sep, sep, |parts[1..][k]|)
        {
          assert parts[1..][k] == parts[k + 1];
        }
      }
      SplitUnique(rest, sep, parts[1..]);
      assert parts == [p] + parts[1..];
    }
  }

  /** Python's `str.isspace()` for one character: the characters `strip()` removes. */
  predicate IsSpace(c: char) {
    ('\t' <= c <= '\r') || ('\U{001C}' <= c <= ' ') || c == '\U{0085}' || c == '\U{00A0}'
    || c == '\U{1680}' || ('\U{2000}' <= c <= '\U{200A}') || c == '\U{2028}' || c == '\U{2029}'
    || c == '\U{202F}' || c == '\U{205F}' || c == '\U{3000}'
  }

  /** Python's `s.lstrip()`: the suffix of `s` after its leading whitespace. */
  function StripLeft(s: string): (r: string)
    ensures |r| <= |s| && r == s[|s| - |r|..]
    ensures forall i :: 0 <= i < |s| - |r| ==> IsSpace(s[i])
    ensures r == [] || !IsSpace(r[0])
    decreases |s|
  {
    if |s| > 0 && IsSpace(s[0]) then StripLeft(s[1..]) else s
  }

  /** Python's `s.rstrip()`: the prefix of `s` before its trailing whitespace. */
  function StripRight(s: string): (r: string)
    ensures |r| <= |s| && r == s[..|r|]
    ensures forall i :: |r| <= i < |s| ==> IsSpace(s[i])
    ensures r == [] || !IsSpace(r[|r| - 1])
    decreases |s|
  {
    if |s| > 0 && IsSpace(s[|s| - 1]) then StripRight(s[..|s| - 1]) else s
  }

  /** Everything in `s` before `i` and from `j` on is whitespace. */
  predicate Surrounds(s: string, i: nat, j: nat) {
    && i <= j <= |s|
    && (forall k :: 0 <= k < i ==> IsSpace(s[k]))
    && (forall k :: j <= k < |s| ==> IsSpace(s[k]))
  }

  /**
   * Python's `s.strip()`: the slice `s[i..j]` such that everything outside it
   * is whitespace and it neither starts nor ends with whitespace.
   */
  function Strip(s: string): (r: string)
    ensures exists i: nat, j: nat :: Surrounds(s, i, j) && r == s[i..j]
    ensures r == [] || (!IsSpace(r[0]) && !IsSpace(r[|r| - 1]))
  {
    var l := StripLeft(s);
    var r := StripRight(l);
    var i := |s| - |l|;
    assert r == s[i..i + |r|];
    forall k | i + |r| <= k < |s| ensures IsSpace(s[k]) {
      assert s[k] == l[k - i];
    }
    assert Surrounds(s, i, i + |r|);
    r
  }

  /** `Strip` keeps exactly the part between the leading and the trailing whitespace. */
  lemma StripExact(s: string, i: nat, j: nat)
    requires Surrounds(s, i, j)
    requires i < j ==> !IsSpace(s[i]) && !IsSpace(s[j - 1])
    ensures Strip(s) == s[i..j]
  {
    var r := Strip(s);
    var i': nat, j': nat :| Surrounds(s, i', j') && r == s[i'..j'];
    assert |r| > 0 ==> r[0] == s[i'] && r[|r| - 1] == s[j' - 1];
  }

  /** No occurrence of `sub` ends inside `a` when `a` lacks the first character of `sub`. */
  lemma FirstAtLead(a: string, sub: string)
    requires |sub| > 0 && sub[0] !in a
    ensures FirstAt(a + sub, sub, |a|)
  {
    var s := a + sub;
    assert s[|a|..|a| + |sub|] == sub;
    forall j: nat | j < |a| ensures !OccursAt(s, sub, j) {
      if j + |sub| <= |s| {
        assert s[j..j + |sub|][0] == a[j];
      }
    }
  }

  /** A string lacking some character of `sub` does not contain `sub`. */
  lemma AbsentChar(s: string, sub: string, c: char)
    requires c in sub && c !in s
    ensures !Contains(s, sub)
  {
    var k :| 0 <= k < |sub| && sub[k] == c;
    forall i: nat | i <= |s| ensures !OccursAt(s, sub, i) {
      if i + |sub| <= |s| {
        assert s[i..i + |sub|][k] == s[i + k];
      }
    }
  }
}
