/** What `usage` of `src/storage.rs` adds up: the visible records of a directory and their bytes. */
module Usage {
  import opened Basics
  import opened Uuids
  import opened Records
  import opened Directory
  import opened Lookup
  import opened Quota

  function VisibleOf(d: Disk): map<Name, Dir> {
    map n | n in d.records && n.Visible? :: d.records[n]
  }

  /** The directories that no reader sees. */
  function HiddenOf(d: Disk): map<Name, Dir> {
    map n | n in d.records && n.Hidden? :: d.records[n]
  }

  function FileBytes(f: FileState<Bytes>): nat { if f.Full? then |f.content| else 0 }

  /** `record_disk_bytes`: the lengths of the three files. */
  function DirBytes(d: Dir): nat {
    FileBytes(d.stdout) + FileBytes(d.stderr) + if d.manifest.Full? then ManifestSize(d.manifest.content) else 0
  }

  ghost function TotalBytes(m: map<Name, Dir>): nat
    decreases |m|
  {
    if m == map[] then 0
    else
      var n :| n in m;
      DirBytes(m[n]) + TotalBytes(m - {n})
  }

  /** The sum does not depend on the order in which the directory is read. */
  lemma {:induction false} TotalWithout(m: map<Name, Dir>, n: Name)
    requires n in m
    ensures TotalBytes(m) == DirBytes(m[n]) + TotalBytes(m - {n})
    decreases |m|
  {
    var k :| k in m && TotalBytes(m) == DirBytes(m[k]) + TotalBytes(m - {k});
    if k != n {
      TotalWithout(m - {k}, n);
      TotalWithout(m - {n}, k);
      assert m - {k} - {n} == m - {n} - {k};
    }
  }

  lemma TotalWith(m: map<Name, Dir>, n: Name, d: Dir)
    requires n !in m
    ensures TotalBytes(m[n := d]) == TotalBytes(m) + DirBytes(d)
    ensures |m[n := d]| == |m| + 1
  {
    TotalWithout(m[n := d], n);
    assert m[n := d] - {n} == m;
    assert m[n := d].Keys == m.Keys + {n};
  }

  /** Every entry of the second map is in the first, unchanged. */
  ghost predicate Within(part: map<Name, Dir>, whole: map<Name, Dir>) {
    forall n | n in part :: n in whole && whole[n] == part[n]
  }

  lemma {:induction false} LessTakesLess(part: map<Name, Dir>, whole: map<Name, Dir>)
    requires Within(part, whole)
    ensures TotalBytes(part) <= TotalBytes(whole) && |part| <= |whole|
    decreases |part|
  {
    if part != map[] {
      var n :| n in part;
      TotalWithout(part, n);
      TotalWithout(whole, n);
      LessTakesLess(part - {n}, whole - {n});
      assert (part - {n}).Keys == part.Keys - {n} && (whole - {n}).Keys == whole.Keys - {n};
    }
  }

  /** The visible records among some names of the directory. */
  function Listed(d: Disk, names: set<Name>): map<Name, Dir> {
    map n | n in names && n in d.records && n.Visible? :: d.records[n]
  }

  lemma AllNames(d: Disk)
    ensures Listed(d, d.records.Keys) == VisibleOf(d)
    ensures Listed(d, {}) == map[] && TotalBytes(map[]) == 0
  {
  }

  lemma ListedWithout(d: Disk, names: set<Name>, n: Name)
    requires n in names
    ensures if n in d.records && n.Visible?
            then && TotalBytes(Listed(d, names)) == DirBytes(d.records[n]) + TotalBytes(Listed(d, names - {n}))
                 && |Listed(d, names)| == 1 + |Listed(d, names - {n})|
            else Listed(d, names - {n}) == Listed(d, names)
  {
    if n in d.records && n.Visible? {
      TotalWithout(Listed(d, names), n);
      assert Listed(d, names) - {n} == Listed(d, names - {n});
      assert Listed(d, names).Keys == Listed(d, names - {n}).Keys + {n};
    }
  }

  lemma PartsWithout(d: Disk, n: Name)
    requires n in d.records
    ensures var rest := d.(records := d.records - {n});
            && VisibleOf(rest) == VisibleOf(d) - {n} && HiddenOf(rest) == HiddenOf(d) - {n}
            && (n.Visible? ==> n in VisibleOf(d) && VisibleOf(d)[n] == d.records[n] && n !in HiddenOf(d))
            && (n.Hidden? ==> n in HiddenOf(d) && HiddenOf(d)[n] == d.records[n] && n !in VisibleOf(d))
  {
  }

  lemma OneEntryLess(m: map<Name, Dir>, n: Name)
    ensures if n in m then |m| == |m - {n}| + 1 && TotalBytes(m) == DirBytes(m[n]) + TotalBytes(m - {n}) else m - {n} == m
  {
    if n in m {
      TotalWithout(m, n);
      assert m.Keys == (m - {n}).Keys + {n};
    }
  }

  /** What stands under `records` is what is visible and what is hidden. */
  lemma {:induction false} BytesSplit(d: Disk)
    ensures TotalBytes(d.records) == TotalBytes(VisibleOf(d)) + TotalBytes(HiddenOf(d))
    ensures |d.records| == |VisibleOf(d)| + |HiddenOf(d)|
    decreases |d.records|
  {
    if d.records == map[] {
      assert VisibleOf(d) == map[] && HiddenOf(d) == map[];
    } else {
      hide VisibleOf, HiddenOf, TotalBytes, DirBytes;
      var n :| n in d.records;
      PartsWithout(d, n);
      OneEntryLess(d.records, n);
      OneEntryLess(VisibleOf(d), n);
      OneEntryLess(HiddenOf(d), n);
      BytesSplit(d.(records := d.records - {n}));
    }
  }

  ghost predicate WithinQuota(c: Config, m: map<Name, Dir>) {
    |m| <= c.maxRecords && TotalBytes(m) <= c.maxTotal
  }
}
