/** get_srt_files of app.py (lines 63-93): the page of subtitle files shown
    on the index page, newest first, and the number of pages. The SRT
    folder is an input: the names os.listdir returns (None when the listing
    fails) and what os.path.getmtime and os.path.getsize report for each
    name (a name missing from the map is one whose stat fails). */
module Catalog {
  import opened Text
  import opened Wrappers

  /** What the filesystem reports for one file: its modification time (a
      whole number here) and its size in bytes. */
  datatype Stat = Stat(mtime: int, size: nat)

  /** One record of the listing: name, modification time and size. */
  datatype FileInfo = FileInfo(name: string, mtime: int, size: nat)

  /** The elements of s that keep holds for, in their order in s. */
  function Filter<T>(s: seq<T>, keep: T -> bool): (r: seq<T>)
    ensures |r| <= |s|
    ensures forall x :: x in r ==> x in s && keep(x)
    decreases |s|
  {
    if s == [] then [] else (if keep(s[0]) then [s[0]] else []) + Filter(s[1..], keep)
  }

  /** Filtering a concatenation filters each part. */
  lemma {:induction false} FilterConcat<T>(a: seq<T>, b: seq<T>, keep: T -> bool)
    ensures Filter(a + b, keep) == Filter(a, keep) + Filter(b, keep)
    decreases |a|
  {
    if a == [] {
      assert a + b == b;
    } else {
      assert (a + b)[1..] == a[1..] + b;
      FilterConcat(a[1..], b, keep);
    }
  }

  /** Filtering keeps every element keep holds for, as often as it occurs,
      and drops every other. */
  lemma {:induction false} FilterMultiset<T>(s: seq<T>, keep: T -> bool, x: T)
    ensures multiset(Filter(s, keep))[x] == if keep(x) then multiset(s)[x] else 0
    decreases |s|
  {
    if s != [] {
      FilterMultiset(s[1..], keep, x);
      assert s == [s[0]] + s[1..];
    }
  }

  /** The test of get_srt_files: the name, lower-cased, ends with ".srt". */
  predicate IsSrtName(name: string) {
    EndsWith(Lower(name), ".srt")
  }

  /** The names that end with ".srt" in any case, in listing order. */
  function SrtNames(names: seq<string>): seq<string> {
    Filter(names, IsSrtName)
  }

  /** Every name in the list is in the stat map. */
  predicate AllStatted(files: seq<string>, stats: map<string, Stat>) {
    forall k :: 0 <= k < |files| ==> files[k] in stats
  }

  function InfoOf(name: string, stat: Stat): FileInfo {
    FileInfo(name, stat.mtime, stat.size)
  }

  /** The records of the files, in order, or None when one of them cannot
      be stat'ed. */
  function Infos(files: seq<string>, stats: map<string, Stat>): Option<seq<FileInfo>> {
    if AllStatted(files, stats) then
      Some(seq(|files|, k requires 0 <= k < |files| && AllStatted(files, stats) => InfoOf(files[k], stats[files[k]])))
    else None
  }

  /** Records in order of non-increasing modification time. */
  predicate Descending(s: seq<FileInfo>) {
    forall i, j :: 0 <= i < j < |s| ==> s[i].mtime >= s[j].mtime
  }

  /** x put into s after every record at least as new as x. */
  function Insert(s: seq<FileInfo>, x: FileInfo): seq<FileInfo>
    decreases |s|
  {
    if s == [] then [x]
    else if s[0].mtime >= x.mtime then [s[0]] + Insert(s[1..], x)
    else [x] + s
  }

  /** Python's sorted(s, key=mtime, reverse=True): newest first, and records
      with equal times in their order in s. */
  function SortByMtime(s: seq<FileInfo>): seq<FileInfo>
    decreases |s|
  {
    if s == [] then [] else Insert(SortByMtime(s[..|s| - 1]), s[|s| - 1])
  }

  /** The records of s whose modification time is m, in their order in s. */
  function Tied(s: seq<FileInfo>, m: int): seq<FileInfo> {
    Filter(s, (e: FileInfo) => e.mtime == m)
  }

  /** Tied, one record at a time. */
  lemma TiedCons(s: seq<FileInfo>, m: int)
    requires s != []
    ensures s[0].mtime == m ==> Tied(s, m) == [s[0]] + Tied(s[1..], m)
    ensures s[0].mtime != m ==> Tied(s, m) == Tied(s[1..], m)
  {
    assert [] + Tied(s[1..], m) == Tied(s[1..], m);
  }

  lemma {:induction false} InsertMultiset(s: seq<FileInfo>, x: FileInfo)
    ensures multiset(Insert(s, x)) == multiset(s) + multiset{x}
    decreases |s|
  {
    if s != [] && s[0].mtime >= x.mtime {
      InsertMultiset(s[1..], x);
      assert s == [s[0]] + s[1..];
    }
  }

  /** The first record after an insertion. */
  lemma InsertHead(s: seq<FileInfo>, x: FileInfo)
    ensures Insert(s, x) != []
    ensures Insert(s, x)[0] == if s != [] && s[0].mtime >= x.mtime then s[0] else x
  {
  }

  lemma {:induction false} InsertDescending(s: seq<FileInfo>, x: FileInfo)
    requires Descending(s)
    ensures Descending(Insert(s, x))
    decreases |s|
  {
    if s != [] && s[0].mtime >= x.mtime {
      var rest := Insert(s[1..], x);
      InsertDescending(s[1..], x);
      InsertHead(s[1..], x);
      assert rest[0].mtime <= s[0].mtime;
      var r := [s[0]] + rest;
      forall i, j | 0 <= i < j < |r|
        ensures r[i].mtime >= r[j].mtime
      {
        if i == 0 && j > 1 {
          assert rest[0].mtime >= rest[j - 1].mtime;
        }
      }
    }
  }

  /** Records of equal time as x keep their order, and x comes after them. */
  lemma {:induction false} InsertTied(s: seq<FileInfo>, x: FileInfo, m: int)
    requires Descending(s)
    ensures Tied(Insert(s, x), m) == Tied(s, m) + (if x.mtime == m then [x] else [])
    decreases |s|
  {
    var keep := (e: FileInfo) => e.mtime == m;
    if s == [] {
      assert Tied([x], m) == (if x.mtime == m then [x] else []) + Filter([x][1..], keep);
    } else if s[0].mtime >= x.mtime {
      InsertTied(s[1..], x, m);
      assert ([s[0]] + Insert(s[1..], x))[1..] == Insert(s[1..], x);
    } else {
      assert ([x] + s)[1..] == s;
      if x.mtime == m {
        NoneTied(s, m);
      }
    }
  }

  lemma {:induction false} NoneTied(s: seq<FileInfo>, m: int)
    requires forall k :: 0 <= k < |s| ==> s[k].mtime < m
    ensures Tied(s, m) == []
    decreases |s|
  {
    if s != [] {
      NoneTied(s[1..], m);
    }
  }

  /** The sorted list is ordered newest first. */
  lemma {:induction false} SortDescending(s: seq<FileInfo>)
    ensures Descending(SortByMtime(s))
    decreases |s|
  {
    if s != [] {
      SortDescending(s[..|s| - 1]);
      InsertDescending(SortByMtime(s[..|s| - 1]), s[|s| - 1]);
    }
  }

  /** The sorted list holds the same records as often as s. */
  lemma {:induction false} SortPermutes(s: seq<FileInfo>)
    ensures multiset(SortByMtime(s)) == multiset(s)
    decreases |s|
  {
    if s != [] {
      SortPermutes(s[..|s| - 1]);
      InsertMultiset(SortByMtime(s[..|s| - 1]), s[|s| - 1]);
      assert s == s[..|s| - 1] + [s[|s| - 1]];
    }
  }

  lemma TiedSnoc(s: seq<FileInfo>, x: FileInfo, m: int)
    ensures Tied(s + [x], m) == Tied(s, m) + (if x.mtime == m then [x] else [])
  {
    var keep := (e: FileInfo) => e.mtime == m;
    FilterConcat(s, [x], keep);
    assert Filter([x], keep) == (if x.mtime == m then [x] else []) + Filter([x][1..], keep);
  }

  /** The sort is stable: the records of any one time keep their order. */
  lemma {:induction false} SortStable(s: seq<FileInfo>, m: int)
    ensures Tied(SortByMtime(s), m) == Tied(s, m)
    decreases |s|
  {
    if s != [] {
      var init, x := s[..|s| - 1], s[|s| - 1];
      assert s == init + [x];
      TiedSnoc(init, x, m);
      SortStable(init, m);
      SortDescending(init);
      InsertTied(SortByMtime(init), x, m);
    }
  }

  /** Two newest-first lists with the same records of every time start
      with records of the same time. */
  lemma HeadTimes(t: seq<FileInfo>, u: seq<FileInfo>)
    requires Descending(t) && Descending(u) && t != [] && u != []
    requires forall m :: Tied(t, m) == Tied(u, m)
    ensures t[0].mtime == u[0].mtime
  {
    TiedCons(t, t[0].mtime);
    assert t[0] in Tied(u, t[0].mtime);
    var k :| 0 <= k < |u| && u[k] == t[0];
    TiedCons(u, u[0].mtime);
    assert u[0] in Tied(t, u[0].mtime);
    var j :| 0 <= j < |t| && t[j] == u[0];
  }

  /** Two newest-first lists of equal length with the same records of
      every time, in the same order, are equal. */
  lemma {:induction false} DescendingDetermined(t: seq<FileInfo>, u: seq<FileInfo>)
    requires |t| == |u| && Descending(t) && Descending(u)
    requires forall m :: Tied(t, m) == Tied(u, m)
    ensures t == u
    decreases |t|
  {
    if t != [] {
      HeadTimes(t, u);
      var a := t[0].mtime;
      TiedCons(t, a);
      TiedCons(u, a);
      HeadsAndTails(t[0], Tied(t[1..], a), u[0], Tied(u[1..], a));
      forall m
        ensures Tied(t[1..], m) == Tied(u[1..], m)
      {
        if m != a {
          TiedCons(t, m);
          TiedCons(u, m);
          assert Tied(t, m) == Tied(u, m);
        }
      }
      DescendingDetermined(t[1..], u[1..]);
      assert t == [t[0]] + t[1..];
      assert u == [u[0]] + u[1..];
    }
  }

  lemma HeadsAndTails<T>(x: T, r: seq<T>, y: T, q: seq<T>)
    requires [x] + r == [y] + q
    ensures x == y && r == q
  {
    assert x == ([x] + r)[0];
    assert r == ([x] + r)[1..];
    assert q == ([y] + q)[1..];
  }

  /** The sort is the one newest-first rearrangement of s that keeps
      records of equal time in their order in s. */
  lemma SortUnique(s: seq<FileInfo>, t: seq<FileInfo>)
    requires multiset(t) == multiset(s) && Descending(t)
    requires forall m :: Tied(t, m) == Tied(s, m)
    ensures t == SortByMtime(s)
  {
    SortDescending(s);
    SortPermutes(s);
    assert |t| == |multiset(t)| == |multiset(SortByMtime(s))| == |SortByMtime(s)|;
    forall m
      ensures Tied(t, m) == Tied(SortByMtime(s), m)
    {
      SortStable(s, m);
    }
    DescendingDetermined(t, SortByMtime(s));
  }

  /** The number of pages of perPage records that total records fill:
      total divided by perPage, rounded up. */
  function PageCount(total: nat, perPage: nat): nat
    requires perPage >= 1
  {
    (total + perPage - 1) / perPage
  }

  /** Python's slice s[(page - 1) * perPage : (page - 1) * perPage + perPage]
      for page >= 1: the bounds are cut down to |s|. */
  function Page<T>(s: seq<T>, page: nat, perPage: nat): (r: seq<T>)
    requires page >= 1
    ensures |r| <= perPage
    ensures |r| == if (page - 1) * perPage >= |s| then 0
                   else if |s| - (page - 1) * perPage < perPage then |s| - (page - 1) * perPage
                   else perPage
    ensures forall k :: 0 <= k < |r| ==> r[k] == s[(page - 1) * perPage + k]
  {
    var start := (page - 1) * perPage;
    var end := start + perPage;
    if start >= |s| then [] else if end <= |s| then s[start..end] else s[start..]
  }

  /** A page of a newest-first list is newest first. */
  lemma PageDescending(s: seq<FileInfo>, page: nat, perPage: nat)
    requires page >= 1 && Descending(s)
    ensures Descending(Page(s, page, perPage))
  {
    var r, o := Page(s, page, perPage), (page - 1) * perPage;
    forall i, j | 0 <= i < j < |r|
      ensures r[i].mtime >= r[j].mtime
    {
      assert r[i] == s[o + i] && r[j] == s[o + j];
    }
  }

  /** The page count is the least number of pages that hold every record. */
  lemma PageCountLeast(total: nat, perPage: nat)
    requires perPage >= 1
    ensures total <= PageCount(total, perPage) * perPage
    ensures PageCount(total, perPage) == 0 || (PageCount(total, perPage) - 1) * perPage < total
    ensures total == 0 <==> PageCount(total, perPage) == 0
  {
    var q, r := (total + perPage - 1) / perPage, (total + perPage - 1) % perPage;
    assert total + perPage - 1 == q * perPage + r;
  }

  /** A page is empty exactly when it lies past the last page. */
  lemma PageEmpty<T>(s: seq<T>, page: nat, perPage: nat)
    requires page >= 1 && perPage >= 1
    ensures Page(s, page, perPage) == [] <==> page > PageCount(|s|, perPage)
  {
    PageCountLeast(|s|, perPage);
    var n := PageCount(|s|, perPage);
    if page > n {
      assert (page - 1) * perPage >= n * perPage by {
        MulMonotone(n, page - 1, perPage);
      }
    } else {
      assert (page - 1) * perPage <= (n - 1) * perPage by {
        MulMonotone(page - 1, n - 1, perPage);
      }
    }
  }

  lemma MulMonotone(a: nat, b: nat, c: nat)
    requires a <= b
    ensures a * c <= b * c
  {
  }

  /** Every record is on a page the count includes: record k is item
      k % perPage of page k / perPage + 1. */
  lemma PageCovers<T>(s: seq<T>, perPage: nat, k: nat)
    requires perPage >= 1 && k < |s|
    ensures 1 <= k / perPage + 1 <= PageCount(|s|, perPage)
    ensures k % perPage < |Page(s, k / perPage + 1, perPage)|
    ensures Page(s, k / perPage + 1, perPage)[k % perPage] == s[k]
  {
    var p, i := k / perPage, k % perPage;
    assert k == p * perPage + i;
    PageCountLeast(|s|, perPage);
    var n := PageCount(|s|, perPage);
    if p + 1 > n {
      MulMonotone(n, p, perPage);
    }
    assert (p + 1 - 1) * perPage == p * perPage;
  }

  /** The loop of get_srt_files: a record for each name, in order, from
      its modification time and size; None as soon as a stat fails. */
  method CollectInfos(names: seq<string>, stats: map<string, Stat>) returns (infos: Option<seq<FileInfo>>)
    ensures infos == Infos(names, stats)
  {
    var records: seq<FileInfo> := [];
    var i := 0;
    while i < |names|
      invariant 0 <= i <= |names|
      invariant |records| == i
      invariant forall k :: 0 <= k < i ==> names[k] in stats && records[k] == InfoOf(names[k], stats[names[k]])
    {
      var name := names[i];
      if name !in stats {
        assert !AllStatted(names, stats);
        return None;
      }
      var stat := stats[name];
      records := records + [FileInfo(name, stat.mtime, stat.size)];
      i := i + 1;
    }
    assert AllStatted(names, stats);
    assert Infos(names, stats).value == records;
    return Some(records);
  }

  /** get_srt_files: collects a record for every .srt name, then sorts,
      slices and counts pages. */
  method GetSrtFiles(dir: Option<seq<string>>, stats: map<string, Stat>, page: nat, perPage: nat)
    returns (files: seq<FileInfo>, totalPages: nat)
    requires page >= 1
    ensures (files, totalPages) == Listing(dir, stats, page, perPage)
  {
    if dir.None? {
      return [], 0;
    }
    var infos := CollectInfos(SrtNames(dir.value), stats);
    if infos.None? || perPage == 0 {
      return [], 0;
    }
    var sorted := SortByMtime(infos.value);
    files := Page(sorted, page, perPage);
    totalPages := (|sorted| + perPage - 1) / perPage;
  }
  /** What get_srt_files returns: the page of .srt records, newest first,
      and the page count; ([], 0) when the folder cannot be listed, when a
      listed .srt file cannot be stat'ed, or when perPage is 0 (the page
      count then divides by zero). */
  function Listing(dir: Option<seq<string>>, stats: map<string, Stat>, page: nat, perPage: nat): (seq<FileInfo>, nat)
    requires page >= 1
  {
    if dir.None? then ([], 0)
    else match Infos(SrtNames(dir.value), stats)
      case None => ([], 0)
      case Some(infos) =>
        if perPage == 0 then ([], 0)
        else
          var sorted := SortByMtime(infos);
          (Page(sorted, page, perPage), PageCount(|sorted|, perPage))
  }

  /** The folder can be listed, every .srt name in it stat'ed, and pages
      hold at least one record. */
  predicate Listable(dir: Option<seq<string>>, stats: map<string, Stat>, perPage: nat) {
    dir.Some? && AllStatted(SrtNames(dir.value), stats) && perPage >= 1
  }

  /** Any failure yields no records and no pages. */
  lemma ListingFails(dir: Option<seq<string>>, stats: map<string, Stat>, page: nat, perPage: nat)
    requires page >= 1 && !Listable(dir, stats, perPage)
    ensures Listing(dir, stats, page, perPage) == ([], 0)
  {
  }

  /** A record of Infos is the record of one of the names. */
  lemma InfosMember(names: seq<string>, stats: map<string, Stat>, x: FileInfo)
    requires AllStatted(names, stats) && x in Infos(names, stats).value
    ensures x.name in names && x.name in stats && x == InfoOf(x.name, stats[x.name])
  {
    var j :| 0 <= j < |names| && Infos(names, stats).value[j] == x;
    assert names[j] == x.name;
  }

  /** The sort neither adds nor drops records. */
  lemma SortMembers(s: seq<FileInfo>, x: FileInfo)
    ensures x in SortByMtime(s) <==> x in s
  {
    SortPermutes(s);
    assert x in SortByMtime(s) <==> x in multiset(SortByMtime(s));
  }

  /** Every listed record is a .srt file of the folder, with its own time
      and size, and the page is newest first. */
  lemma ListingRecords(dir: Option<seq<string>>, stats: map<string, Stat>, page: nat, perPage: nat)
    requires page >= 1
    ensures var files := Listing(dir, stats, page, perPage).0;
      Descending(files)
      && forall x :: x in files ==>
           IsSrtName(x.name) && dir.Some? && x.name in dir.value
           && x.name in stats && x == InfoOf(x.name, stats[x.name])
  {
    if Listable(dir, stats, perPage) {
      var names := SrtNames(dir.value);
      var infos := Infos(names, stats).value;
      var files := Page(SortByMtime(infos), page, perPage);
      assert Descending(files) by {
        SortDescending(infos);
        PageDescending(SortByMtime(infos), page, perPage);
      }
      forall x | x in files
        ensures IsSrtName(x.name) && x.name in dir.value
          && x.name in stats && x == InfoOf(x.name, stats[x.name])
      {
        SortMembers(infos, x);
        InfosMember(names, stats, x);
      }
    }
  }

  /** All the .srt records of a listable folder, newest first. */
  function SortedRecords(dir: Option<seq<string>>, stats: map<string, Stat>): seq<FileInfo>
    requires dir.Some? && AllStatted(SrtNames(dir.value), stats)
  {
    SortByMtime(Infos(SrtNames(dir.value), stats).value)
  }

  /** There is one sorted record per .srt name. */
  lemma SortedRecordsCount(dir: Option<seq<string>>, stats: map<string, Stat>)
    requires dir.Some? && AllStatted(SrtNames(dir.value), stats)
    ensures |SortedRecords(dir, stats)| == |SrtNames(dir.value)|
  {
    var infos := Infos(SrtNames(dir.value), stats).value;
    SortPermutes(infos);
    assert |multiset(SortByMtime(infos))| == |SortByMtime(infos)|;
  }

  lemma ListingValue(dir: Option<seq<string>>, stats: map<string, Stat>, page: nat, perPage: nat)
    requires page >= 1 && Listable(dir, stats, perPage)
    ensures Listing(dir, stats, page, perPage)
      == (Page(SortedRecords(dir, stats), page, perPage), PageCount(|SortedRecords(dir, stats)|, perPage))
  {
  }

  /** The page is the slice of the sorted records that starts at
      (page - 1) * perPage and holds up to perPage of them; the page count
      is the number of .srt files divided by perPage, rounded up; and the
      page is empty exactly when it lies past the last page. */
  lemma ListingPage(dir: Option<seq<string>>, stats: map<string, Stat>, page: nat, perPage: nat)
    requires page >= 1 && Listable(dir, stats, perPage)
    ensures var (files, total) := Listing(dir, stats, page, perPage);
      var sorted := SortedRecords(dir, stats);
      |sorted| == |SrtNames(dir.value)|
      && total == PageCount(|SrtNames(dir.value)|, perPage)
      && |files| <= perPage
      && (files == [] <==> page > total)
      && forall k :: 0 <= k < |files| ==> files[k] == sorted[(page - 1) * perPage + k]
  {
    ListingValue(dir, stats, page, perPage);
    SortedRecordsCount(dir, stats);
    PageEmpty(SortedRecords(dir, stats), page, perPage);
  }

  /** Every .srt file of the folder is listed on one of the counted pages. */
  lemma ListingCovers(dir: Option<seq<string>>, stats: map<string, Stat>, perPage: nat, name: string)
    requires Listable(dir, stats, perPage) && name in SrtNames(dir.value)
    ensures exists page ::
      1 <= page <= Listing(dir, stats, 1, perPage).1 && InfoOf(name, stats[name]) in Listing(dir, stats, page, perPage).0
  {
    var names := SrtNames(dir.value);
    var infos := Infos(names, stats).value;
    var sorted := SortedRecords(dir, stats);
    var j :| 0 <= j < |names| && names[j] == name;
    var x := infos[j];
    assert x == InfoOf(name, stats[name]);
    SortMembers(infos, x);
    var k :| 0 <= k < |sorted| && sorted[k] == x;
    PageCovers(sorted, perPage, k);
    var page := k / perPage + 1;
    ListingValue(dir, stats, 1, perPage);
    ListingValue(dir, stats, page, perPage);
    assert Listing(dir, stats, page, perPage).0[k % perPage] == x;
  }
}
