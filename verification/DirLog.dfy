/** Directory files: a 4-byte counter followed by a log of entries that is only appended to.
    Deleting an entry overwrites its inode id with -1 and leaves the rest of it in place. */
module DirLog {
  import opened Bytes

  type Name = seq<byte>

  const DOT: Name := [46]
  const DOTDOT: Name := [46, 46]

  /** The inode id of a deleted entry. */
  const DELETED := -1

  datatype Entry = Entry(id: int, name: Name)

  predicate Sized(e: Entry) {
    Int32(e.id) && Int32(|e.name|)
  }

  function EncodeEntry(e: Entry): (b: seq<byte>)
    ensures |b| == 8 + |e.name|
  {
    IntBytes(e.id) + IntBytes(|e.name|) + e.name
  }

  /** Bytes a log takes. */
  function LogSize(log: seq<Entry>): nat {
    if |log| == 0 then 0 else LogSize(log[..|log| - 1]) + 8 + |log[|log| - 1].name|
  }

  function EncodeLog(log: seq<Entry>): (b: seq<byte>)
    ensures |b| == LogSize(log)
  {
    if |log| == 0 then [] else EncodeLog(log[..|log| - 1]) + EncodeEntry(log[|log| - 1])
  }

  function EncodeDir(cnt: int, log: seq<Entry>): (b: seq<byte>)
    ensures |b| == 4 + LogSize(log)
  {
    IntBytes(cnt) + EncodeLog(log)
  }

  /** File offset at which raw entry `r` starts. */
  function EntryOffset(log: seq<Entry>, r: nat): nat
    requires r <= |log|
  {
    4 + LogSize(log[..r])
  }

  /** The entries that are not deleted, in log order. */
  function Live(log: seq<Entry>): (es: seq<Entry>)
    ensures |es| <= |log|
  {
    if |log| == 0 then []
    else
      var es := Live(log[..|log| - 1]);
      var e := log[|log| - 1];
      if e.id == DELETED then es else Push(es, e)
  }

  /** The entries a directory shows: the loader stops after `cnt` live ones. */
  function Visible(cnt: nat, log: seq<Entry>): seq<Entry> {
    if cnt <= |Live(log)| then Live(log)[..cnt] else Live(log)
  }

  /** Name table of a list of entries; inserting into a table never replaces an earlier entry. */
  function Table(es: seq<Entry>): map<Name, int> {
    if |es| == 0 then map[]
    else
      var m := Table(es[..|es| - 1]);
      var e := es[|es| - 1];
      if e.name in m then m else m[e.name := e.id]
  }

  /** `name` is entered by `es[p]` and by no earlier entry. */
  ghost predicate FirstAt(es: seq<Entry>, name: Name, p: int) {
    0 <= p < |es| && es[p].name == name && forall q :: 0 <= q < p ==> es[q].name != name
  }

  // ---------- the byte image of a log ----------

  /** The image of a prefix of the log is a prefix of its image. */
  lemma {:induction false} EncodeSplit(log: seq<Entry>, r: nat)
    requires r <= |log|
    ensures LogSize(log[..r]) <= LogSize(log)
    ensures forall x :: 0 <= x < LogSize(log[..r]) ==> EncodeLog(log)[x] == EncodeLog(log[..r])[x]
  {
    if r == |log| {
      assert log[..r] == log;
    } else {
      var m := |log| - 1;
      EncodeSplit(log[..m], r);
      assert log[..m][..r] == log[..r];
    }
  }

  lemma OffsetStep(log: seq<Entry>, r: nat)
    requires r < |log|
    ensures EntryOffset(log, r + 1) == EntryOffset(log, r) + 8 + |log[r].name|
    ensures EncodeLog(log[..r + 1]) == EncodeLog(log[..r]) + EncodeEntry(log[r])
  {
    assert log[..r + 1][..r] == log[..r];
  }

  /** The bytes from `o` on are the image of entry `e`. */
  ghost predicate EntryAt(b: seq<byte>, o: nat, e: Entry) {
    && o + 8 + |e.name| <= |b|
    && forall q {:trigger EncodeEntry(e)[q]} :: 0 <= q < 8 + |e.name| ==>
        b[o + q] == EncodeEntry(e)[q]
  }

  lemma EntryImage(cnt: int, log: seq<Entry>, r: nat)
    requires r < |log|
    ensures EntryAt(EncodeDir(cnt, log), EntryOffset(log, r), log[r])
  {
    var o, b, e := EntryOffset(log, r), EncodeDir(cnt, log), log[r];
    EncodeSplit(log, r + 1);
    OffsetStep(log, r);
    forall q | 0 <= q < 8 + |e.name|
      ensures b[o + q] == EncodeEntry(e)[q]
    {
      assert b[o + q] == EncodeLog(log)[o + q - 4];
    }
  }

  /** Raw entry `r` is decoded from its own offset, whatever follows it in the log. */
  lemma EntryBytes(cnt: int, log: seq<Entry>, r: nat)
    requires r < |log|
    ensures var o := EntryOffset(log, r); var b := EncodeDir(cnt, log);
      && o + 8 + |log[r].name| == EntryOffset(log, r + 1) <= |b|
      && Chunk(b, o, 4) == IntBytes(log[r].id)
      && Chunk(b, o + 4, 4) == IntBytes(|log[r].name|)
      && Chunk(b, o + 8, |log[r].name|) == log[r].name
  {
    EncodeSplit(log, r + 1);
    OffsetStep(log, r);
    EntryImage(cnt, log, r);
    EntryParts(EncodeDir(cnt, log), EntryOffset(log, r), log[r]);
  }

  lemma EntryParts(b: seq<byte>, o: nat, e: Entry)
    requires EntryAt(b, o, e)
    ensures Chunk(b, o, 4) == IntBytes(e.id)
    ensures Chunk(b, o + 4, 4) == IntBytes(|e.name|)
    ensures Chunk(b, o + 8, |e.name|) == e.name
  {
    var c := EncodeEntry(e);
    forall q | 0 <= q < 4
      ensures b[o + q] == IntBytes(e.id)[q] && b[o + 4 + q] == IntBytes(|e.name|)[q]
    {
      assert c[q] == IntBytes(e.id)[q] && c[4 + q] == IntBytes(|e.name|)[q];
    }
    forall q | 0 <= q < |e.name|
      ensures b[o + 8 + q] == e.name[q]
    {
      assert c[8 + q] == e.name[q];
    }
  }

  /** The bytes of a directory file determine its counter and every entry. */
  lemma DirDetermined(c: int, log: seq<Entry>, c': int, log': seq<Entry>)
    requires Int32(c) && Int32(c')
    requires forall r :: 0 <= r < |log| ==> Sized(log[r])
    requires forall r :: 0 <= r < |log'| ==> Sized(log'[r])
    requires EncodeDir(c, log) == EncodeDir(c', log')
    ensures c == c' && log == log'
  {
    CounterBytes(c, log);
    CounterBytes(c', log');
    IntRoundTrip(c);
    IntRoundTrip(c');
    var m := if |log| < |log'| then |log| else |log'|;
    SamePrefix(c, log, log', m);
    assert log[..|log|] == log && log'[..|log'|] == log';
    if m < |log| {
      EntryBytes(c, log, m);
      assert false;
    } else if m < |log'| {
      EntryBytes(c, log', m);
      assert false;
    }
  }

  lemma CounterBytes(c: int, log: seq<Entry>)
    ensures Chunk(EncodeDir(c, log), 0, 4) == IntBytes(c)
  {
  }

  lemma {:induction false} SamePrefix(c: int, log: seq<Entry>, log': seq<Entry>, m: nat)
    requires forall r :: 0 <= r < |log| ==> Sized(log[r])
    requires forall r :: 0 <= r < |log'| ==> Sized(log'[r])
    requires EncodeDir(c, log) == EncodeDir(c, log') && m <= |log| && m <= |log'|
    ensures log[..m] == log'[..m]
  {
    if m > 0 {
      SamePrefix(c, log, log', m - 1);
      SameEntry(c, log, log', m - 1);
      assert log[..m] == log[..m - 1] + [log[m - 1]];
      assert log'[..m] == log'[..m - 1] + [log'[m - 1]];
    }
  }

  lemma SameEntry(c: int, log: seq<Entry>, log': seq<Entry>, r: nat)
    requires r < |log| && r < |log'| && Sized(log[r]) && Sized(log'[r])
    requires EncodeDir(c, log) == EncodeDir(c, log') && log[..r] == log'[..r]
    ensures log[r] == log'[r]
  {
    EntryBytes(c, log, r);
    EntryBytes(c, log', r);
    IntRoundTrip(log[r].id);
    IntRoundTrip(log'[r].id);
    IntRoundTrip(|log[r].name|);
    IntRoundTrip(|log'[r].name|);
  }

  /** Deleting an entry overwrites four bytes of the log. */
  lemma DeleteBytes(cnt: int, log: seq<Entry>, r: nat)
    requires r < |log|
    ensures EntryOffset(log, r) + 4 <= |EncodeDir(cnt, log)|
    ensures EncodeDir(cnt, log[r := Entry(DELETED, log[r].name)])
         == Patch(EncodeDir(cnt, log), EntryOffset(log, r), IntBytes(DELETED))
  {
    DeleteLogBytes(log, r);
    PatchBack(IntBytes(cnt), EncodeLog(log), LogSize(log[..r]), IntBytes(DELETED));
  }

  lemma {:induction false} DeleteLogBytes(log: seq<Entry>, r: nat)
    requires r < |log|
    ensures LogSize(log[..r]) + 4 <= LogSize(log)
    ensures EncodeLog(log[r := Entry(DELETED, log[r].name)])
         == Patch(EncodeLog(log), LogSize(log[..r]), IntBytes(DELETED))
  {
    var m := |log| - 1;
    var log' := log[r := Entry(DELETED, log[r].name)];
    if r == m {
      assert log'[..m] == log[..m];
      PatchBack(EncodeLog(log[..m]), EncodeEntry(log[m]), 0, IntBytes(DELETED));
      DeleteEntryBytes(log[m]);
    } else {
      DeleteLogBytes(log[..m], r);
      assert log[..m][..r] == log[..r];
      assert log'[..m] == log[..m][r := Entry(DELETED, log[..m][r].name)];
      PatchFront(EncodeLog(log[..m]), EncodeEntry(log[m]), LogSize(log[..r]), IntBytes(DELETED));
    }
  }

  lemma DeleteEntryBytes(e: Entry)
    ensures EncodeEntry(Entry(DELETED, e.name)) == Patch(EncodeEntry(e), 0, IntBytes(DELETED))
  {
  }

  lemma PatchFront(x: seq<byte>, y: seq<byte>, a: nat, s: seq<byte>)
    requires a + |s| <= |x|
    ensures Patch(x + y, a, s) == Patch(x, a, s) + y
  {
  }

  lemma PatchBack(x: seq<byte>, y: seq<byte>, a: nat, s: seq<byte>)
    requires a + |s| <= |y|
    ensures Patch(x + y, |x| + a, s) == x + Patch(y, a, s)
  {
  }

  // ---------- live entries ----------

  lemma LiveStep(log: seq<Entry>, r: nat)
    requires r < |log|
    ensures Live(log[..r + 1]) == if log[r].id == DELETED then Live(log[..r]) else Live(log[..r]) + [log[r]]
  {
    assert log[..r + 1][..r] == log[..r];
  }

  lemma LiveAppend(log: seq<Entry>, e: Entry)
    ensures Live(Push(log, e)) == if e.id == DELETED then Live(log) else Live(log) + [e]
  {
    PushFront(log, e);
  }

  lemma PrefixOfPrefix(a: seq<Entry>, b: seq<Entry>, c: seq<Entry>)
    requires |a| <= |b| <= |c| && b[..|a|] == a && c[..|b|] == b
    ensures c[..|a|] == a
  {
  }

  lemma {:induction false} LivePrefix(log: seq<Entry>, r: nat)
    requires r <= |log|
    ensures |Live(log[..r])| <= |Live(log)| && Live(log)[..|Live(log[..r])|] == Live(log[..r])
    decreases |log| - r
  {
    if r < |log| {
      LiveStep(log, r);
      LivePrefix(log, r + 1);
      PrefixOfPrefix(Live(log[..r]), Live(log[..r + 1]), Live(log));
    } else {
      assert log[..r] == log;
    }
  }

  /** Deleting a live entry takes exactly that entry out of the live list. */
  lemma {:induction false} LiveDelete(log: seq<Entry>, r: nat)
    requires r < |log| && log[r].id != DELETED
    ensures var p := |Live(log[..r])|;
      && p < |Live(log)| && Live(log)[p] == log[r]
      && Live(log[r := Entry(DELETED, log[r].name)]) == Live(log)[..p] + Live(log)[p + 1..]
  {
    var m := |log| - 1;
    var p := |Live(log[..r])|;
    var log' := log[r := Entry(DELETED, log[r].name)];
    if r == m {
      assert log'[..m] == log[..m];
    } else {
      LiveDelete(log[..m], r);
      assert log[..m][..r] == log[..r];
      assert log'[..m] == log[..m][r := Entry(DELETED, log[..m][r].name)];
    }
  }

  lemma {:induction false} LiveElements(log: seq<Entry>, e: Entry)
    ensures e in Live(log) <==> e.id != DELETED && e in log
  {
    if |log| > 0 {
      var m := |log| - 1;
      LiveElements(log[..m], e);
      assert log[m].id != DELETED ==> Live(log) == Live(log[..m]) + [log[m]];
      assert log == log[..m] + [log[m]];
    }
  }

  lemma {:induction false} LiveAt(log: seq<Entry>, p: nat) returns (r: nat)
    requires p < |Live(log)|
    ensures r < |log| && log[r].id != DELETED && log[r] == Live(log)[p] && |Live(log[..r])| == p
  {
    var m := |log| - 1;
    if p < |Live(log[..m])| {
      r := LiveAt(log[..m], p);
      assert log[..m][..r] == log[..r];
    } else {
      r := m;
    }
  }

  // ---------- name tables ----------

  /** First wins: the table maps exactly the entered names, each to the id of its first entry. */
  lemma {:induction false} TableFirstWins(es: seq<Entry>, name: Name)
    ensures name in Table(es) <==> exists p :: FirstAt(es, name, p)
    ensures forall p :: FirstAt(es, name, p) ==> name in Table(es) && Table(es)[name] == es[p].id
  {
    if |es| > 0 {
      var m := |es| - 1;
      TableFirstWins(es[..m], name);
      if name in Table(es[..m]) {
        var p :| FirstAt(es[..m], name, p);
        assert FirstAt(es, name, p);
      } else if es[m].name == name {
        assert FirstAt(es, name, m) by {
          forall q | 0 <= q < m
            ensures es[q].name != name
          {
            if es[q].name == name {
              NameEntered(es[..m], name, q);
            }
          }
        }
      }
      forall p | FirstAt(es, name, p)
        ensures name in Table(es) && Table(es)[name] == es[p].id
      {
        if p < m {
          assert FirstAt(es[..m], name, p);
        }
      }
    }
  }

  lemma {:induction false} NameEntered(es: seq<Entry>, name: Name, q: nat)
    requires q < |es| && es[q].name == name
    ensures name in Table(es)
  {
    var m := |es| - 1;
    if q < m {
      NameEntered(es[..m], name, q);
    }
  }

  lemma {:induction false} TableValue(es: seq<Entry>, name: Name) returns (p: nat)
    requires name in Table(es)
    ensures FirstAt(es, name, p) && Table(es)[name] == es[p].id
  {
    TableFirstWins(es, name);
    p :| FirstAt(es, name, p);
  }

  lemma EnterWithout(t: map<Name, int>, e: Entry, k: Name)
    requires e.name != k
    ensures t[e.name := e.id] - {k} == (t - {k})[e.name := e.id]
  {
  }

  lemma LastNameNew(es: seq<Entry>)
    requires |es| > 0 && forall q :: 0 <= q < |es| - 1 ==> es[q].name != es[|es| - 1].name
    ensures Table(es[..|es| - 1]) == Table(es) - {es[|es| - 1].name}
  {
    var m := |es| - 1;
    var t, e := Table(es[..m]), es[m];
    assert e.name !in t by {
      if e.name in t {
        var q := TableValue(es[..m], e.name);
      }
    }
    assert t[e.name := e.id] - {e.name} == t;
  }

  /** Taking out an entry whose name is entered only once takes exactly that name out of the table. */
  lemma {:induction false} TableWithout(es: seq<Entry>, p: nat)
    requires p < |es| && forall q :: 0 <= q < |es| && q != p ==> es[q].name != es[p].name
    ensures Table(es[..p] + es[p + 1..]) == Table(es) - {es[p].name}
  {
    var m := |es| - 1;
    var es' := es[..p] + es[p + 1..];
    if p == m {
      assert es' == es[..m];
      LastNameNew(es);
    } else {
      var k, e, t := es[p].name, es[m], Table(es[..m]);
      TableWithout(es[..m], p);
      assert Table(es'[..m - 1]) == t - {k} by {
        assert es[..m][..p] + es[..m][p + 1..] == es'[..m - 1];
      }
      assert es'[m - 1] == e && e.name != k;
      EnterWithout(t, e, k);
    }
  }

  // ---------- loading a directory ----------

  /** Count and table after the raw entries below `r`. */
  ghost function Loaded(log: seq<Entry>, r: nat): (nat, map<Name, int>)
    requires r <= |log|
    decreases r
  {
    if r == 0 then (0, map[])
    else
      var (k, t) := Loaded(log, r - 1);
      var e := log[r - 1];
      if e.id == DELETED then (k, t) else (k + 1, if e.name in t then t else t[e.name := e.id])
  }

  lemma {:induction false} LoadedIs(log: seq<Entry>, r: nat)
    requires r <= |log|
    ensures Loaded(log, r) == (|Live(log[..r])|, Table(Live(log[..r])))
  {
    if r > 0 {
      LoadedIs(log, r - 1);
      LiveStep(log, r - 1);
      var es := Live(log[..r - 1]);
      if log[r - 1].id != DELETED {
        assert Live(log[..r])[..|es|] == es;
      }
    } else {
      assert log[..0] == [];
    }
  }

  /** The loader stands before raw entry `r`, at file offset `off`, with `k` entries entered in `table`. */
  ghost predicate Loading(log: seq<Entry>, r: nat, off: int, k: int, table: map<Name, int>) {
    r <= |log| && off == EntryOffset(log, r) && (k, table) == Loaded(log, r)
  }

  lemma LoadingStarts(log: seq<Entry>)
    ensures Loading(log, 0, 4, 0, map[])
  {
    assert log[..0] == [];
  }

  lemma LoadingMore(log: seq<Entry>, r: nat, off: int, k: int, table: map<Name, int>)
    requires Loading(log, r, off, k, table) && k < |Live(log)|
    ensures r < |log|
  {
    LoadedIs(log, r);
    assert log[..|log|] == log;
  }

  lemma LoadingSkips(log: seq<Entry>, r: nat, off: int, k: int, table: map<Name, int>)
    requires Loading(log, r, off, k, table) && r < |log| && log[r].id == DELETED
    ensures Loading(log, r + 1, off + 8 + |log[r].name|, k, table)
  {
    OffsetStep(log, r);
  }

  lemma LoadingEnters(log: seq<Entry>, r: nat, off: int, k: int, table: map<Name, int>, table': map<Name, int>)
    requires Loading(log, r, off, k, table) && r < |log| && log[r].id != DELETED
    requires table' == if log[r].name in table then table else table[log[r].name := log[r].id]
    ensures Loading(log, r + 1, off + 8 + |log[r].name|, k + 1, table')
  {
    OffsetStep(log, r);
  }

  lemma LoadingEnds(log: seq<Entry>, r: nat, off: int, k: nat, table: map<Name, int>)
    requires Loading(log, r, off, k, table)
    ensures table == Table(Visible(k, log))
  {
    LoadedIs(log, r);
    LivePrefix(log, r);
    assert Live(log)[..k] == Live(log[..r]);
  }
}
