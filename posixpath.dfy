/** The POSIX flavour of Python's `os.path.join` (`posixpath.join`). */
module PosixPath {

  /** `os.sep` on a POSIX system. */
  const Sep: char := '/'

  /** `p.startswith(os.sep)`: the path is absolute. */
  predicate IsAbsolute(p: string) {
    |p| > 0 && p[0] == Sep
  }

  /** One step of the join loop: append `b` to `path`. */
  function Join2(path: string, b: string): string {
    if IsAbsolute(b) then b
    else if path == [] || path[|path| - 1] == Sep then path + b
    else path + [Sep] + b
  }

  /** `os.path.join(a, *parts)`. */
  function Join(a: string, parts: seq<string>): string
    decreases |parts|
  {
    if parts == [] then a else Join(Join2(a, parts[0]), parts[1..])
  }

  /** An absolute part discards everything joined before it. */
  lemma {:induction false} JoinRestartsAtAbsolute(a: string, parts: seq<string>, k: nat)
    requires k < |parts| && IsAbsolute(parts[k])
    ensures Join(a, parts) == Join(parts[k], parts[k + 1..])
    decreases k
  {
    if k > 0 {
      JoinRestartsAtAbsolute(Join2(a, parts[0]), parts[1..], k - 1);
      assert parts[1..][k - 1] == parts[k];
      assert parts[1..][k..] == parts[k + 1..];
    }
  }

  /** With no absolute part, the result starts with the first argument. */
  lemma {:induction false} JoinKeepsBase(a: string, parts: seq<string>)
    requires forall k :: 0 <= k < |parts| ==> !IsAbsolute(parts[k])
    ensures a <= Join(a, parts)
    decreases |parts|
  {
    if parts != [] {
      assert !IsAbsolute(parts[0]);
      JoinKeepsBase(Join2(a, parts[0]), parts[1..]);
    }
  }

  /** Joining relative names onto the same directory: the paths are equal only if the names are. */
  lemma JoinRelativeInjective(a: string, b1: string, b2: string)
    requires !IsAbsolute(b1) && !IsAbsolute(b2)
    ensures Join(a, [b1]) == Join(a, [b2]) <==> b1 == b2
  {
    var d := if a == [] || a[|a| - 1] == Sep then a else a + [Sep];
    assert Join(a, [b1]) == d + b1;
    assert Join(a, [b2]) == d + b2;
    if d + b1 == d + b2 {
      assert b1 == (d + b1)[|d|..];
      assert b2 == (d + b2)[|d|..];
    }
  }
}
