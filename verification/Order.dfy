/** The order in which a table of names is gone through: names byte by byte, paths name by name. */
module Order {
  import opened DirLog

  /** Names followed one after another, starting in some directory. */
  type Path = seq<Name>

  predicate Less(a: Name, b: Name)
    decreases |a|
  {
    |b| > 0 && (|a| == 0 || a[0] < b[0] || (a[0] == b[0] && Less(a[1..], b[1..])))
  }

  predicate PathLess(p: Path, q: Path)
    decreases |p|
  {
    |q| > 0 && (|p| == 0 || Less(p[0], q[0]) || (p[0] == q[0] && PathLess(p[1..], q[1..])))
  }

  lemma {:induction false} LessTotal(a: Name, b: Name)
    ensures a == b || Less(a, b) || Less(b, a)
    decreases |a|
  {
    if |a| > 0 && |b| > 0 && a[0] == b[0] {
      LessTotal(a[1..], b[1..]);
      assert a == [a[0]] + a[1..] && b == [b[0]] + b[1..];
    }
  }

  lemma {:induction false} LessOneWay(a: Name, b: Name)
    requires Less(a, b)
    ensures a != b && !Less(b, a)
    decreases |a|
  {
    if |a| > 0 && a[0] == b[0] {
      LessOneWay(a[1..], b[1..]);
    }
  }

  lemma {:induction false} NotLessSelf(a: Name)
    ensures !Less(a, a)
  {
    if |a| > 0 {
      NotLessSelf(a[1..]);
    }
  }

  lemma {:induction false} LessThen(a: Name, b: Name, c: Name)
    requires Less(a, b) && Less(b, c)
    ensures Less(a, c)
    decreases |a|
  {
    if |a| > 0 && a[0] == b[0] && b[0] == c[0] {
      LessThen(a[1..], b[1..], c[1..]);
    }
  }

  lemma {:induction false} PathLessOneWay(p: Path, q: Path)
    requires PathLess(p, q)
    ensures p != q && !PathLess(q, p)
    decreases |p|
  {
    if |p| > 0 {
      if Less(p[0], q[0]) {
        LessOneWay(p[0], q[0]);
      } else {
        PathLessOneWay(p[1..], q[1..]);
        assert !Less(q[0], p[0]) by {
          NotLessSelf(p[0]);
        }
      }
    }
  }

  // ---------- the order, letter by letter ----------

  /** `a` and `b` agree below `k`, where `a` ends or has the smaller byte. */
  predicate PartsAt(a: Name, b: Name, k: int) {
    0 <= k <= |a| && k < |b| && (forall i :: 0 <= i < k ==> a[i] == b[i]) && (k == |a| || a[k] < b[k])
  }

  /** The order of a dictionary: bytes compared one after another, upwards, a proper prefix first. */
  ghost predicate Precedes(a: Name, b: Name) {
    exists k :: PartsAt(a, b, k)
  }

  lemma {:induction false} LessIs(a: Name, b: Name)
    ensures Less(a, b) <==> Precedes(a, b)
    decreases |a|
  {
    if |b| > 0 && (|a| == 0 || a[0] < b[0]) {
      assert PartsAt(a, b, 0);
    } else if |b| > 0 && a[0] == b[0] {
      LessIs(a[1..], b[1..]);
      forall k | PartsAt(a[1..], b[1..], k)
        ensures PartsAt(a, b, k + 1)
      {
        assert forall i :: 0 < i < k + 1 ==> a[i] == a[1..][i - 1] && b[i] == b[1..][i - 1];
      }
      forall k | PartsAt(a, b, k)
        ensures PartsAt(a[1..], b[1..], k - 1)
      {
      }
    }
  }

  /** `p` and `q` agree below `k`, where `p` ends or has the name that comes before. */
  ghost predicate PathsPartAt(p: Path, q: Path, k: int) {
    0 <= k <= |p| && k < |q| && (forall i :: 0 <= i < k ==> p[i] == q[i]) && (k == |p| || Precedes(p[k], q[k]))
  }

  /** A path comes before those that continue it; of two that part, the one with the earlier name. */
  ghost predicate PathPrecedes(p: Path, q: Path) {
    exists k :: PathsPartAt(p, q, k)
  }

  lemma {:induction false} PathLessIs(p: Path, q: Path)
    requires PathLess(p, q)
    ensures PathPrecedes(p, q)
    decreases |p|
  {
    if |p| == 0 {
      assert PathsPartAt(p, q, 0);
    } else if Less(p[0], q[0]) {
      LessIs(p[0], q[0]);
      assert PathsPartAt(p, q, 0);
    } else {
      PathLessIs(p[1..], q[1..]);
      var k :| PathsPartAt(p[1..], q[1..], k);
      assert forall i :: 0 < i < k + 1 ==> p[i] == p[1..][i - 1] && q[i] == q[1..][i - 1];
      assert PathsPartAt(p, q, k + 1);
    }
  }

  ghost predicate Ascending(paths: seq<Path>) {
    forall i, j :: 0 <= i < j < |paths| ==> PathLess(paths[i], paths[j])
  }

  lemma LastSame(a: seq<Path>, b: seq<Path>)
    requires Ascending(a) && Ascending(b) && |a| > 0 && |b| > 0 && forall p :: p in a <==> p in b
    ensures a[|a| - 1] == b[|b| - 1]
  {
    var m, n := |a| - 1, |b| - 1;
    assert a[m] in b && b[n] in a;
    var j :| 0 <= j <= n && b[j] == a[m];
    var i :| 0 <= i <= m && a[i] == b[n];
    if j < n {
      PathLessOneWay(b[j], b[n]);
      assert false;
    }
  }

  /** Two ascending lists of the same paths are the same list. */
  lemma {:induction false} AscendingUnique(a: seq<Path>, b: seq<Path>)
    requires Ascending(a) && Ascending(b) && forall p :: p in a <==> p in b
    ensures a == b
    decreases |a|
  {
    assert |a| > 0 ==> a[0] in b;
    assert |b| > 0 ==> b[0] in a;
    if |a| > 0 {
      var m, n := |a| - 1, |b| - 1;
      LastSame(a, b);
      FrontsSame(a, b, a[..m], b[..n]);
      AscendingUnique(a[..m], b[..n]);
      assert a == a[..m] + [a[m]] && b == b[..n] + [b[n]];
    }
  }

  lemma FrontsSame(a: seq<Path>, b: seq<Path>, a': seq<Path>, b': seq<Path>)
    requires Ascending(a) && Ascending(b) && |a| > 0 && |b| > 0 && a[|a| - 1] == b[|b| - 1]
    requires a' == a[..|a| - 1] && b' == b[..|b| - 1] && forall p :: p in a <==> p in b
    ensures forall p :: p in a' <==> p in b'
  {
    forall p | p in a'
      ensures p in b'
    {
      FrontIn(a, b, p);
    }
    forall p | p in b'
      ensures p in a'
    {
      FrontIn(b, a, p);
    }
  }

  lemma FrontIn(a: seq<Path>, b: seq<Path>, p: Path)
    requires Ascending(a) && |a| > 0 && |b| > 0 && a[|a| - 1] == b[|b| - 1]
    requires (forall q :: q in a ==> q in b) && p in a[..|a| - 1]
    ensures p in b[..|b| - 1]
  {
    var i :| 0 <= i < |a| - 1 && a[i] == p;
    PathLessOneWay(a[i], a[|a| - 1]);
    assert p in a;
    var j :| 0 <= j < |b| && b[j] == p;
    assert b[..|b| - 1][j] == p;
  }

  // ---------- the keys of a table ----------

  /** The keys of a table in order. */
  ghost predicate InOrder(t: map<Name, int>, names: seq<Name>) {
    && (forall i, j :: 0 <= i < j < |names| ==> Less(names[i], names[j]))
    && (forall n :: n in names <==> n in t)
  }

  ghost function Keys(t: map<Name, int>): (names: seq<Name>)
    ensures forall i :: 0 <= i < |names| ==> names[i] in t
  {
    if exists names :: InOrder(t, names) then
      var names :| InOrder(t, names);
      assert forall i :: 0 <= i < |names| ==> names[i] in names;
      names
    else []
  }

  lemma {:induction false} LeastExists(names: set<Name>) returns (least: Name)
    requires names != {}
    ensures least in names && forall n :: n in names && n != least ==> Less(least, n)
    decreases |names|
  {
    var name :| name in names;
    least := name;
    if names != {name} {
      var rest := LeastExists(names - {name});
      LessTotal(rest, name);
      least := if Less(rest, name) then rest else name;
      forall n | n in names && n != least
        ensures Less(least, n)
      {
        if n != rest && n != name && Less(least, rest) {
          LessThen(least, rest, n);
        }
      }
    }
  }

  lemma {:induction false} Sorted(names: set<Name>) returns (r: seq<Name>)
    ensures forall i, j :: 0 <= i < j < |r| ==> Less(r[i], r[j])
    ensures forall n :: n in r <==> n in names
    decreases |names|
  {
    r := [];
    if names != {} {
      var least := LeastExists(names);
      var rest := Sorted(names - {least});
      assert forall i :: 0 <= i < |rest| ==> rest[i] in rest;
      r := [least] + rest;
    }
  }

  /** Every table has such an order. */
  lemma KeysInOrder(t: map<Name, int>)
    ensures InOrder(t, Keys(t))
  {
    var names := Sorted(t.Keys);
    assert InOrder(t, names);
  }

  ghost function Single(names: seq<Name>): (paths: seq<Path>)
    ensures |paths| == |names| && forall i :: 0 <= i < |names| ==> paths[i] == [names[i]]
  {
    seq(|names|, i requires 0 <= i < |names| => [names[i]])
  }

  /** There is one such order. */
  lemma KeysAre(t: map<Name, int>, names: seq<Name>)
    requires InOrder(t, names)
    ensures Keys(t) == names
  {
    var names' :| InOrder(t, names') && Keys(t) == names';
    SinglesAscend(t, names);
    SinglesAscend(t, names');
    AscendingUnique(Single(names), Single(names'));
    assert |names| == |names'|;
    forall i | 0 <= i < |names|
      ensures names[i] == names'[i]
    {
      assert Single(names)[i] == Single(names')[i];
    }
  }

  lemma SinglesAscend(t: map<Name, int>, names: seq<Name>)
    requires InOrder(t, names)
    ensures Ascending(Single(names)) && forall p :: p in Single(names) <==> |p| == 1 && p[0] in t
  {
    forall p
      ensures p in Single(names) <==> |p| == 1 && p[0] in t
    {
      if p in Single(names) {
        var i :| 0 <= i < |names| && Single(names)[i] == p;
        assert names[i] in names;
      }
      if |p| == 1 && p[0] in t {
        var i :| 0 <= i < |names| && names[i] == p[0];
        assert Single(names)[i] == p;
      }
    }
  }

  /** The least name of a set. */
  method Least(names: set<Name>) returns (least: Name)
    requires names != {}
    ensures least in names && forall n :: n in names && n != least ==> Less(least, n)
  {
    least :| least in names;
    var todo := names - {least};
    while todo != {}
      invariant todo <= names && least in names - todo
      invariant forall n :: n in names - todo && n != least ==> Less(least, n)
      decreases |todo|
    {
      var name :| name in todo;
      ghost var was := least;
      LessTotal(name, least);
      if Less(name, least) {
        least := name;
        forall n | n in names - todo && n != was
          ensures Less(name, n)
        {
          LessThen(name, was, n);
        }
      }
      todo := todo - {name};
    }
  }
}
