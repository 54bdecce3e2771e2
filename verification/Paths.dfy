/** Path strings: the split into directory and name, and the split at slashes. */
module Paths {
  import opened Bytes
  import opened DirLog

  const SLASH := 47

  /** Length of the run of non-slash characters at the front. */
  function WordLength(path: seq<byte>): (n: nat)
    ensures n <= |path|
    ensures forall i :: 0 <= i < n ==> path[i] != SLASH
    ensures n < |path| ==> path[n] == SLASH
  {
    if |path| == 0 || path[0] == SLASH then 0 else 1 + WordLength(path[1..])
  }

  /** The non-empty pieces between slashes. */
  function Tokens(path: seq<byte>): seq<Name> {
    if |path| == 0 then []
    else if path[0] == SLASH then Tokens(path[1..])
    else [path[..WordLength(path)]] + Tokens(path[WordLength(path)..])
  }

  predicate IsAbsolute(path: seq<byte>) {
    |path| > 0 && path[0] == SLASH
  }

  /** Index of the last slash, -1 when there is none. */
  function LastSlash(path: seq<byte>): (k: int)
    ensures -1 <= k < |path|
    ensures k >= 0 ==> path[k] == SLASH
    ensures forall i :: k < i < |path| ==> path[i] != SLASH
  {
    if |path| == 0 then -1
    else if path[|path| - 1] == SLASH then |path| - 1
    else LastSlash(path[..|path| - 1])
  }

  /** Directory part: everything before the last slash, `.` when there is no slash. */
  function DirPart(path: seq<byte>): seq<byte> {
    if LastSlash(path) == -1 then DOT else path[..LastSlash(path)]
  }

  function NamePart(path: seq<byte>): Name {
    path[LastSlash(path) + 1..]
  }

  /** The two parts of a path: what is before and after its last slash. */
  lemma SplitLast(dir: seq<byte>, name: Name, path: seq<byte>)
    requires path == dir + [SLASH] + name && forall i :: 0 <= i < |name| ==> name[i] != SLASH
    ensures LastSlash(path) == |dir| && DirPart(path) == dir && NamePart(path) == name
  {
    assert forall i :: |dir| < i < |path| ==> path[i] == name[i - |dir| - 1];
    assert path[|dir|] == SLASH;
  }

  lemma {:induction false} WordLengthJoin(p: seq<byte>, q: seq<byte>)
    requires |p| > 0 && p[0] != SLASH
    ensures WordLength(p + [SLASH] + q) == WordLength(p)
  {
    var j := p + [SLASH] + q;
    assert forall i :: 0 <= i < |p| ==> j[i] == p[i];
    assert j[|p|] == SLASH;
  }

  /** The tokens of a joined path are the tokens of its two parts in order. */
  lemma {:induction false} TokensJoin(p: seq<byte>, q: seq<byte>)
    ensures Tokens(p + [SLASH] + q) == Tokens(p) + Tokens(q)
    decreases |p|
  {
    var j := p + [SLASH] + q;
    if |p| == 0 {
      assert j[1..] == q;
    } else if p[0] == SLASH {
      assert j[1..] == p[1..] + [SLASH] + q;
      TokensJoin(p[1..], q);
    } else {
      var n := WordLength(p);
      WordLengthJoin(p, q);
      assert n > 0;
      assert j[..n] == p[..n] && j[n..] == p[n..] + [SLASH] + q;
      TokensJoin(p[n..], q);
      assert Tokens(j) == [p[..n]] + (Tokens(p[n..]) + Tokens(q));
    }
  }

  function Slashes(path: seq<byte>): nat {
    if |path| == 0 then 0 else Slashes(path[..|path| - 1]) + if path[|path| - 1] == SLASH then 1 else 0
  }

  lemma {:induction false} SlashesPrefix(path: seq<byte>, i: nat)
    requires i <= |path|
    ensures Slashes(path[..i]) <= Slashes(path)
    ensures Slashes(path[..i]) == Slashes(path) ==> forall x :: i <= x < |path| ==> path[x] != SLASH
    decreases |path|
  {
    if i < |path| {
      assert path[..|path| - 1][..i] == path[..i];
      SlashesPrefix(path[..|path| - 1], i);
    } else {
      assert path[..i] == path;
    }
  }

  /** The slash that completes the count is the last one. */
  lemma LastCounted(path: seq<byte>, i: nat)
    requires i < |path| && path[i] == SLASH && Slashes(path[..i]) + 1 == Slashes(path)
    ensures LastSlash(path) == i
  {
    assert path[..i + 1][..i] == path[..i];
    SlashesPrefix(path, i + 1);
  }

  lemma {:induction false} NoSlash(path: seq<byte>)
    ensures Slashes(path) == 0 <==> LastSlash(path) == -1
  {
    if |path| > 0 {
      NoSlash(path[..|path| - 1]);
    }
  }

  /** Without a slash the path is taken relative to `.`. */
  lemma {:induction false} PrefixedPath(path: seq<byte>)
    requires LastSlash(path) == -1
    ensures LastSlash(DOT + [SLASH] + path) == 1
    ensures Slashes(DOT + [SLASH] + path) == 1
  {
    var p := DOT + [SLASH] + path;
    if |path| > 0 {
      PrefixedPath(path[..|path| - 1]);
      assert p[..|p| - 1] == DOT + [SLASH] + path[..|path| - 1];
    } else {
      assert p[..1] == DOT;
      assert DOT[..0] == [];
    }
  }
}
