/** What removal does to a directory, and exactly when it does what it should. */
module Removal {
  import opened DirLog
  import opened Machine
  import opened Invariants

  /** The directory after the removal loop, when the target may be removed. */
  function AfterRm(f: File, name: Name): File
    requires f.Dir? && 0 <= f.cnt <= |f.log|
  {
    var r := FirstRaw(f.log, f.cnt, name);
    if r == f.cnt then f else Unlink(f, r)
  }

  /** The counter counts the live entries, and their names are distinct. */
  ghost predicate Coherent(f: File)
    requires f.Dir?
  {
    && f.cnt == |Live(f.log)|
    && forall p, q :: 0 <= p < q < |Live(f.log)| ==> Live(f.log)[p].name != Live(f.log)[q].name
  }

  /** What removal is for: the table loses that name and nothing else, and the counter still counts. */
  ghost predicate Removed(f: File, f': File, name: Name)
    requires f.Dir? && f'.Dir?
  {
    && DirTable(f') == DirTable(f) - {name}
    && f'.cnt == |Live(f'.log)|
  }

  lemma AllVisible(f: File)
    requires f.Dir? && f.cnt == |Live(f.log)|
    ensures Visible(f.cnt, f.log) == Live(f.log)
  {
  }

  /** No other live entry has the name of raw entry `p`. */
  predicate Alone(log: seq<Entry>, p: nat)
    requires p < |log|
  {
    forall q :: 0 <= q < |log| && q != p && log[q].id != DELETED ==> log[q].name != log[p].name
  }

  /** Unlinking the one live entry of a name. */
  lemma UnlinkRemoves(f: File, p: nat)
    requires f.Dir? && f.cnt == |Live(f.log)| && p < |f.log| && f.log[p].id != DELETED && Alone(f.log, p)
    ensures Removed(f, Unlink(f, p), f.log[p].name)
    ensures f.log[p].name in DirTable(f)
  {
    var es := Live(f.log);
    var k := |Live(f.log[..p])|;
    LiveDelete(f.log, p);
    AllVisible(f);
    AllVisible(Unlink(f, p));
    forall q | 0 <= q < |es| && q != k
      ensures es[q].name != es[k].name
    {
      var r := LiveAt(f.log, q);
    }
    TableWithout(es, k);
    NameEntered(es, es[k].name, k);
  }

  /** Live entries of different raw index have different names. */
  lemma LiveNamesDiffer(f: File, p: nat, q: nat)
    requires f.Dir? && Coherent(f) && p < q < |f.log| && f.log[p].id != DELETED && f.log[q].id != DELETED
    ensures f.log[p].name != f.log[q].name
  {
    LiveDelete(f.log, p);
    LiveDelete(f.log, q);
    LiveStep(f.log, p);
    LivePrefix(f.log[..q], p + 1);
    assert f.log[..q][..p + 1] == f.log[..p + 1];
  }

  lemma CoherentAlone(f: File, p: nat)
    requires f.Dir? && Coherent(f) && p < |f.log| && f.log[p].id != DELETED
    ensures Alone(f.log, p)
  {
    forall q | 0 <= q < |f.log| && q != p && f.log[q].id != DELETED
      ensures f.log[q].name != f.log[p].name
    {
      if q < p {
        LiveNamesDiffer(f, q, p);
      } else {
        LiveNamesDiffer(f, p, q);
      }
    }
  }

  /** A name is still shown when another live entry of that name is unlinked. */
  lemma StillShown(f: File, r: nat, q: nat)
    requires f.Dir? && f.cnt == |Live(f.log)| && r < |f.log| && q < |f.log| && q != r
    requires f.log[r].id != DELETED && f.log[q].id != DELETED && f.log[q].name == f.log[r].name
    ensures f.log[r].name in DirTable(Unlink(f, r))
  {
    var f' := Unlink(f, r);
    LiveDelete(f.log, r);
    AllVisible(f');
    assert f'.log[q] == f.log[q];
    LiveElements(f'.log, f.log[q]);
    var k :| 0 <= k < |Live(f'.log)| && Live(f'.log)[k] == f.log[q];
    NameEntered(Live(f'.log), f.log[r].name, k);
  }

  /** A removal never makes a counter right that was too low. */
  lemma CountStaysLow(f: File, name: Name)
    requires f.Dir? && 0 <= f.cnt < |Live(f.log)|
    ensures AfterRm(f, name).cnt < |Live(AfterRm(f, name).log)|
  {
    var r := FirstRaw(f.log, f.cnt, name);
    if r < f.cnt {
      if f.log[r].id == DELETED {
        assert Unlink(f, r).log == f.log;
      } else {
        LiveDelete(f.log, r);
      }
    }
  }

  /** Removing the live entry at raw index `p` works exactly when the counter is right, `p` is below it,
      no earlier raw entry, deleted or not, has the name, and no later live one. */
  lemma RmExact(f: File, p: nat)
    requires f.Dir? && 0 <= f.cnt <= |Live(f.log)| && p < |f.log| && f.log[p].id != DELETED
    ensures Removed(f, AfterRm(f, f.log[p].name), f.log[p].name) <==>
              && f.cnt == |Live(f.log)| && p < f.cnt
              && (forall q :: 0 <= q < p ==> f.log[q].name != f.log[p].name)
              && (forall q :: p < q < |f.log| && f.log[q].id != DELETED ==> f.log[q].name != f.log[p].name)
  {
    var name := f.log[p].name;
    var r := FirstRaw(f.log, f.cnt, name);
    if f.cnt < |Live(f.log)| {
      CountStaysLow(f, name);
    } else if Removed(f, AfterRm(f, name), name) {
      RemovedAlone(f, p, r);
    } else if p == r {
      if Alone(f.log, p) {
        UnlinkRemoves(f, p);
      }
    }
  }

  /** Deleting a deleted entry lowers the counter and does nothing else. */
  lemma DeletedAgain(f: File, r: nat)
    requires f.Dir? && r < |f.log|
    ensures f.log[r].id == DELETED ==> Unlink(f, r) == f.(cnt := f.cnt - 1)
  {
    if f.log[r].id == DELETED {
      assert Unlink(f, r).log == f.log;
    }
  }

  /** Where removal works, it hits the entry, and there is no other of that name. */
  lemma RemovedAlone(f: File, p: nat, r: nat)
    requires f.Dir? && 0 <= f.cnt == |Live(f.log)| && p < |f.log| && f.log[p].id != DELETED
    requires r == FirstRaw(f.log, f.cnt, f.log[p].name) && Removed(f, AfterRm(f, f.log[p].name), f.log[p].name)
    ensures r == p < f.cnt && Alone(f.log, p)
  {
    var name := f.log[p].name;
    LiveElements(f.log, f.log[p]);
    var k :| 0 <= k < |Live(f.log)| && Live(f.log)[k] == f.log[p];
    AllVisible(f);
    NameEntered(Live(f.log), name, k);
    assert r < f.cnt;
    DeletedAgain(f, r);
    assert f.log[r].id != DELETED;
    forall q | 0 <= q < |f.log| && q != r && f.log[q].id != DELETED
      ensures f.log[q].name != name
    {
      if f.log[q].name == name {
        StillShown(f, r, q);
        assert false;
      }
    }
  }

  // ---------- the table alone ----------

  /** Another entry of `vis` than the one at index `k` has the name. */
  predicate Elsewhere(vis: seq<Entry>, k: int, name: Name) {
    exists q :: 0 <= q < |vis| && q != k && vis[q].name == name
  }

  /** Removal takes exactly `name` out of the table.  The scan hits nothing: the name was not shown.  It
      hits a live entry: no other entry shown has the name.  It hits a deleted entry, and the lower counter
      hides the last entry shown: that one had the name and no other; or its name was shown by another
      entry, and the name to be removed was not. */
  predicate TakesName(f: File, name: Name)
    requires f.Dir? && 0 <= f.cnt <= |Live(f.log)|
  {
    var r, vis := FirstRaw(f.log, f.cnt, name), Visible(f.cnt, f.log);
    if r == f.cnt then name !in DirTable(f)
    else if f.log[r].id != DELETED then !Elsewhere(vis, |Live(f.log[..r])|, name)
    else if vis[f.cnt - 1].name in Table(vis[..f.cnt - 1]) then name !in DirTable(f)
    else vis[f.cnt - 1].name == name
  }

  /** The list without its element at index `k`. */
  function Dropped(es: seq<Entry>, k: nat): (r: seq<Entry>)
    requires k < |es|
    ensures |r| == |es| - 1
  {
    seq(|es| - 1, i requires 0 <= i < |es| - 1 => if i < k then es[i] else es[i + 1])
  }

  lemma DroppedIs(es: seq<Entry>, k: nat)
    requires k < |es|
    ensures Dropped(es, k) == es[..k] + es[k + 1..]
  {
  }

  lemma StillEntered(es: seq<Entry>, k: nat, q: nat)
    requires k < |es| && q < |es| && q != k && es[q].name == es[k].name
    ensures es[k].name in Table(Dropped(es, k))
  {
    var p := if q < k then q else q - 1;
    assert Dropped(es, k)[p] == es[q];
    NameEntered(Dropped(es, k), es[k].name, p);
  }

  lemma TableDropped(es: seq<Entry>, k: nat)
    requires k < |es| && !Elsewhere(es, k, es[k].name)
    ensures Table(Dropped(es, k)) == Table(es) - {es[k].name}
  {
    DroppedIs(es, k);
    TableWithout(es, k);
  }

  lemma TableOnce(es: seq<Entry>, k: nat)
    requires k < |es|
    ensures Table(Dropped(es, k)) == Table(es) - {es[k].name} <==> !Elsewhere(es, k, es[k].name)
  {
    if Elsewhere(es, k, es[k].name) {
      var q :| 0 <= q < |es| && q != k && es[q].name == es[k].name;
      StillEntered(es, k, q);
    } else {
      TableDropped(es, k);
    }
  }

  /** What is visible after a live entry below the counter is unlinked: the same without it. */
  lemma VisibleUnlinked(f: File, r: nat)
    requires f.Dir? && r < f.cnt <= |Live(f.log)| && f.log[r].id != DELETED
    ensures var vis := Visible(f.cnt, f.log); var k := |Live(f.log[..r])|;
      k < |vis| && vis[k] == f.log[r] && Visible(f.cnt - 1, Unlink(f, r).log) == Dropped(vis, k)
  {
    LiveDelete(f.log, r);
    var es, k := Live(f.log), |Live(f.log[..r])|;
    assert Dropped(es[..f.cnt], k) == (es[..k] + es[k + 1..])[..f.cnt - 1];
  }

  /** Without the last entry, a table lacks exactly `name`. */
  lemma LastHidden(es: seq<Entry>, name: Name)
    requires |es| > 0
    ensures var m := |es| - 1;
      Table(es[..m]) == Table(es) - {name} <==>
        if es[m].name in Table(es[..m]) then name !in Table(es) else es[m].name == name
  {
    var m := |es| - 1;
    var t, e := Table(es[..m]), es[m];
    if e.name in t {
      assert name !in t ==> t - {name} == t;
    } else if e.name == name {
      assert t[e.name := e.id] - {e.name} == t;
    } else {
      assert e.name in Table(es) - {name};
    }
  }

  /** Exactly when removal takes the name, and nothing else, out of what a directory shows. */
  lemma RmTable(f: File, name: Name)
    requires f.Dir? && 0 <= f.cnt <= |Live(f.log)|
    ensures DirTable(AfterRm(f, name)) == DirTable(f) - {name} <==> TakesName(f, name)
  {
    var r := FirstRaw(f.log, f.cnt, name);
    if r == f.cnt {
      Without(DirTable(f), name);
    } else if f.log[r].id != DELETED {
      UnlinkLive(f, r);
    } else {
      UnlinkDead(f, r, name);
    }
  }

  lemma UnlinkLive(f: File, r: nat)
    requires f.Dir? && r < f.cnt <= |Live(f.log)| && f.log[r].id != DELETED
    ensures var name := f.log[r].name;
      DirTable(Unlink(f, r)) == DirTable(f) - {name} <==>
        !Elsewhere(Visible(f.cnt, f.log), |Live(f.log[..r])|, name)
  {
    var vis, k := Visible(f.cnt, f.log), |Live(f.log[..r])|;
    VisibleUnlinked(f, r);
    TableOnce(vis, k);
    assert DirTable(Unlink(f, r)) == Table(Dropped(vis, k));
  }

  lemma UnlinkDead(f: File, r: nat, name: Name)
    requires f.Dir? && r < f.cnt <= |Live(f.log)| && f.log[r].id == DELETED
    ensures var vis := Visible(f.cnt, f.log);
      |vis| == f.cnt &&
      (DirTable(Unlink(f, r)) == DirTable(f) - {name} <==>
         if vis[f.cnt - 1].name in Table(vis[..f.cnt - 1]) then name !in DirTable(f) else vis[f.cnt - 1].name == name)
  {
    VisibleLowered(f, r);
    LastHidden(Visible(f.cnt, f.log), name);
  }

  lemma Without(t: map<Name, int>, name: Name)
    ensures t == t - {name} <==> name !in t
  {
    assert name !in t ==> t - {name} == t;
  }

  /** What is visible after a deleted entry is unlinked again: the same without the last. */
  lemma VisibleLowered(f: File, r: nat)
    requires f.Dir? && r < f.cnt <= |Live(f.log)| && r < |f.log| && f.log[r].id == DELETED
    ensures var vis := Visible(f.cnt, f.log);
      |vis| == f.cnt && Visible(f.cnt - 1, Unlink(f, r).log) == vis[..f.cnt - 1] && Unlink(f, r).cnt == f.cnt - 1
  {
    DeletedAgain(f, r);
    assert Live(f.log)[..f.cnt][..f.cnt - 1] == Live(f.log)[..f.cnt - 1];
  }

  /** The same for the command: refused, it changes nothing. */
  lemma RmTableCommand(s: State, name: Name)
    requires Inv(s) && CanRm(s, name)
    ensures var f, f' := s.files[s.cwd], DoRm(s, name).0.files[s.cwd]; var r := FirstRaw(f.log, f.cnt, name);
      && f'.Dir? && 0 <= f.cnt <= |Live(f.log)|
      && (DirTable(f') == DirTable(f) - {name} <==>
            if r < f.cnt && Occupied(s.files, f.log[r].id) then name !in DirTable(f) else TakesName(f, name))
  {
    var f := s.files[s.cwd];
    assert DirOk(s.files, s.cwd);
    RmTable(f, name);
    Without(DirTable(f), name);
  }

  /** A directory in which nothing has been deleted. */
  predicate NothingDeleted(f: File)
    requires f.Dir?
  {
    f.cnt == |f.log| && forall r :: 0 <= r < |f.log| ==> f.log[r].id != DELETED
  }

  lemma {:induction false} AllLive(log: seq<Entry>)
    requires forall r :: 0 <= r < |log| ==> log[r].id != DELETED
    ensures Live(log) == log
  {
    if |log| > 0 {
      AllLive(log[..|log| - 1]);
    }
  }

  lemma FirstOccurrence(log: seq<Entry>, cnt: nat, name: Name, p: nat)
    requires p < cnt <= |log| && log[p].name == name && forall q :: 0 <= q < p ==> log[q].name != name
    ensures FirstRaw(log, cnt, name) == p
  {
  }

  /** What is live after the last entry has been deleted. */
  lemma LiveFront(log: seq<Entry>, a: Entry, log2: seq<Entry>)
    requires forall r :: 0 <= r < |log| ==> log[r].id != DELETED
    requires |log2| == |log| + 1 && log2[|log|] == Entry(DELETED, a.name)
    requires forall q :: 0 <= q < |log| ==> log2[q] == log[q]
    ensures Live(log2) == log
  {
    AllLive(log);
    LiveStep(log2, |log|);
    assert log2[..|log|] == log && log2[..|log| + 1] == log2;
  }

  /** What is live after entry `a`, the last but one, has been deleted. */
  lemma LiveBut(log: seq<Entry>, a: Entry, b: Entry, log3: seq<Entry>)
    requires forall r :: 0 <= r < |log| ==> log[r].id != DELETED
    requires b.id != DELETED && |log3| == |log| + 2
    requires forall q :: 0 <= q < |log| ==> log3[q] == log[q]
    requires log3[|log|] == Entry(DELETED, a.name) && log3[|log| + 1] == b
    ensures Live(log3) == log + [b]
  {
    LiveFront(log, a, log3[..|log| + 1]);
    LiveStep(log3, |log| + 1);
    assert log3[..|log| + 2] == log3;
  }

  lemma NamesOf(log: seq<Entry>, b: Entry, name: Name)
    requires forall q :: 0 <= q < |log| ==> log[q].name != name
    ensures b.name in Table(log + [b])
    ensures name in Table(log + [b]) ==> b.name == name
  {
    var es := log + [b];
    NameEntered(es, b.name, |log|);
    if name in Table(es) {
      var k := TableValue(es, name);
    }
  }

  /** Make two entries and remove the first: the second can then not be removed, because its raw index
      has become the counter.  The directory is left as it is, the name still in it. */
  lemma RmMissesYounger(f: File, a: Entry, b: Entry)
    requires f.Dir? && NothingDeleted(f) && a.id != DELETED && b.id != DELETED && a.name != b.name
    requires forall q :: 0 <= q < |f.log| ==> f.log[q].name != a.name && f.log[q].name != b.name
    ensures var f2 := Append(Append(f, a), b); var f3 := AfterRm(f2, a.name);
      && a.name !in DirTable(f3) && b.name in DirTable(f3)
      && AfterRm(f3, b.name) == f3
  {
    var n := |f.log|;
    var f2 := Append(Append(f, a), b);
    FirstOccurrence(f2.log, f2.cnt, a.name, n);
    var f3 := AfterRm(f2, a.name);
    LiveBut(f.log, a, b, f3.log);
    AllVisible(f3);
    NamesOf(f.log, b, a.name);
    assert forall q :: 0 <= q < f3.cnt ==> f3.log[q].name != b.name;
  }

  lemma NoName(es: seq<Entry>, name: Name)
    requires forall q :: 0 <= q < |es| ==> es[q].name != name
    ensures name !in Table(es)
  {
    if name in Table(es) {
      var q := TableValue(es, name);
    }
  }

  /** Make an entry, remove it, make it again and remove it again: the second removal finds the deleted
      entry first.  The name goes from the table, because the lower counter hides its live entry, which is
      still in the log and no longer counted. */
  lemma RmHitsDeleted(f: File, a: Entry, a': Entry)
    requires f.Dir? && NothingDeleted(f) && a.id != DELETED && a'.id != DELETED && a'.name == a.name
    requires forall q :: 0 <= q < |f.log| ==> f.log[q].name != a.name
    ensures var f1 := Append(AfterRm(Append(f, a), a.name), a'); var f2 := AfterRm(f1, a.name);
      && f1.cnt == |Live(f1.log)|
      && f2.log == f1.log && f2.cnt == |Live(f2.log)| - 1
      && a.name in DirTable(f1) && DirTable(f2) == DirTable(f1) - {a.name}
  {
    var n := |f.log|;
    var g := Append(f, a);
    FirstOccurrence(g.log, g.cnt, a.name, n);
    var f1 := Append(AfterRm(g, a.name), a');
    LiveBut(f.log, a, a', f1.log);
    FirstOccurrence(f1.log, f1.cnt, a.name, n);
    assert Unlink(f1, n).log == f1.log;
    AllVisible(f1);
    LastShown(f.log, a');
    RmTable(f1, a.name);
  }

  lemma LastShown(es: seq<Entry>, e: Entry)
    requires forall q :: 0 <= q < |es| ==> es[q].name != e.name
    ensures var all := es + [e]; all[..|es|] == es && all[|es|] == e && e.name !in Table(es) && e.name in Table(all)
  {
    NoName(es, e.name);
    NamesOf(es, e, e.name);
  }

  /** Deleting an entry leaves every entry where it is. */
  lemma OffsetKept(log: seq<Entry>, p: nat, q: nat)
    requires p < |log| && q <= |log|
    ensures EntryOffset(log[p := Entry(DELETED, log[p].name)], q) == EntryOffset(log, q)
  {
    var log' := log[p := Entry(DELETED, log[p].name)];
    if q <= p {
      assert log'[..q] == log[..q];
    } else {
      assert log'[..q] == log[..q][p := Entry(DELETED, log[..q][p].name)];
      DeleteSize(log[..q], p);
    }
  }

  /** In a coherent directory every live entry past the first two is shown, as the inode it names. */
  lemma LiveShown(files: seq<File>, d: nat, p: nat)
    requires FilesOk(files) && IsDir(files, d) && Coherent(files[d])
    requires 2 <= p < |files[d].log| && files[d].log[p].id != DELETED
    ensures Shows(files, d, files[d].log[p].name) && Child(files, d, files[d].log[p].name) == files[d].log[p].id
  {
    var f, name := files[d], files[d].log[p].name;
    assert DirOk(files, d);
    CoherentAlone(f, p);
    UnlinkRemoves(f, p);
    var r := TableEntry(files, d, name);
  }

  /** On the whole state: a name whose live entry passes the test goes, whatever it names, unless that is
      a directory in use, and then nothing changes. */
  lemma RmCommand(s: State, name: Name, p: nat)
    requires Inv(s) && CanRm(s, name) && s.files[s.cwd].cnt == |Live(s.files[s.cwd].log)|
    requires p < |s.files[s.cwd].log| && s.files[s.cwd].log[p].name == name && s.files[s.cwd].log[p].id != DELETED
    requires p < s.files[s.cwd].cnt && forall q :: 0 <= q < p ==> s.files[s.cwd].log[q].name != name
    requires Alone(s.files[s.cwd].log, p)
    ensures var (s', o) := DoRm(s, name); var f := s.files[s.cwd];
      if Occupied(s.files, f.log[p].id) then s' == s && o == Failed
      else
        && o == Done && s'.cwd == s.cwd && s'.fds == s.fds
        && (forall i :: 0 <= i < |s.files| && i != s.cwd ==> s'.files[i] == s.files[i])
        && s'.files[s.cwd].Dir? && Removed(f, s'.files[s.cwd], name) && Size(s'.files[s.cwd]) == Size(f)
        && |s'.files[s.cwd].log| == |f.log|
        && forall q :: 0 <= q <= |f.log| ==> EntryOffset(s'.files[s.cwd].log, q) == EntryOffset(f.log, q)
  {
    var f := s.files[s.cwd];
    FirstOccurrence(f.log, f.cnt, name, p);
    UnlinkRemoves(f, p);
    DeleteSize(f.log, p);
    forall q | 0 <= q <= |f.log|
      ensures EntryOffset(Unlink(f, p).log, q) == EntryOffset(f.log, q)
    {
      OffsetKept(f.log, p, q);
    }
  }

  /** A removal gives no inode and no data block back. */
  lemma RmFreesNothing(s: State, name: Name)
    requires Inv(s) && CanRm(s, name)
    ensures var s' := DoRm(s, name).0; |s'.files| == |s.files| && Used(s'.files) == Used(s.files)
  {
    var f := s.files[s.cwd];
    var r := FirstRaw(f.log, f.cnt, name);
    if r < f.cnt {
      UsedUpdate(s.files, s.cwd, Unlink(f, r));
    }
  }

  lemma {:induction false} UsedUpdate(files: seq<File>, i: nat, f: File)
    requires i < |files|
    ensures Used(files[i := f]) == Used(files) - BlocksFor(files[i].cap) + BlocksFor(f.cap)
  {
    var m := |files| - 1;
    if i == m {
      assert files[i := f][..m] == files[..m];
    } else {
      assert files[i := f][..m] == files[..m][i := f];
      UsedUpdate(files[..m], i, f);
    }
  }
}
