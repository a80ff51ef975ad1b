/**
 * SubtitleDownload.search_subtitles and check_status: the request built from
 * the movies found, the selection of subtitles from the server's answer
 * (drop the bad ones, then drop adjacent repeats of a movie hash with
 * list.remove), and the plan of subtitle files written for the movies.
 */
module SubtitleSearch {
  import opened Wrappers
  import FileNames

  /** A movie found by the directory walk, as kept in `moviefiles`. */
  datatype Movie = Movie(dir: string, file: string, hash: string, size: nat)

  /** One entry of the SearchSubtitles request. */
  datatype SearchEntry = SearchEntry(language: string, movieHash: string, movieByteSize: nat)

  /**
   * The fields of one SearchSubtitles result that the downloader reads; the
   * SubBad field is given after `int()`.
   */
  datatype SubtitleRecord = SubtitleRecord(subBad: int, idSubtitleFile: string, movieHash: string)

  /** A subtitle kept for download: `{'subid': ..., 'hash': ...}`. */
  datatype Subtitle = Subtitle(subId: string, hash: string)

  /** One intended file write: the subtitle `subId` saved at `path`. */
  datatype Write = Write(path: string, subId: string)

  /** A server response: its status and its data, None standing for `False`. */
  datatype Response = Response(status: string, data: Option<seq<SubtitleRecord>>)

  /** What search_subtitles does: the writes it makes, or the status that stopped it. */
  datatype Outcome = Written(writes: seq<Write>) | StatusError(status: string)

  // ---------------------------------------------------------------------
  // check_status

  /** str.upper on one character (ASCII letters only). */
  function UpperChar(ch: char): char
  {
    if 'a' <= ch <= 'z' then (ch as int - 32) as char else ch
  }

  /** str.upper (ASCII letters only). */
  function Upper(s: string): (r: string)
    ensures |r| == |s|
    ensures forall i :: 0 <= i < |s| ==> r[i] == UpperChar(s[i])
  {
    if s == "" then "" else [UpperChar(s[0])] + Upper(s[1..])
  }

  /** check_status accepts a response iff its upper-cased status is "200 OK". */
  predicate StatusOk(status: string)
  {
    Upper(status) == "200 OK"
  }

  /** The accepted statuses are exactly "200 OK" with "ok" in any case. */
  lemma StatusOkSpelledOut(status: string)
    ensures StatusOk(status) <==>
      |status| == 6 && status[..4] == "200 " && status[4] in "oO" && status[5] in "kK"
  {
    var u := Upper(status);
    if |status| == 6 {
      assert u == [UpperChar(status[0]), UpperChar(status[1]), UpperChar(status[2]),
                   UpperChar(status[3]), UpperChar(status[4]), UpperChar(status[5])];
      if status[..4] == "200 " {
        assert status[0] == '2' && status[1] == '0' && status[2] == '0' && status[3] == ' ';
      }
      if u == "200 OK" {
        assert status[..4] == [status[0], status[1], status[2], status[3]];
      }
    }
  }

  // ---------------------------------------------------------------------
  // The search request

  /**
   * The request: one English entry per movie, in order, sentinel hashes
   * included; a single entry is sent twice.
   */
  method BuildSearch(movies: seq<Movie>) returns (search: seq<SearchEntry>)
    ensures |search| == if |movies| == 1 then 2 else |movies|
    ensures forall i :: 0 <= i < |movies| ==>
      search[i] == SearchEntry("eng", movies[i].hash, movies[i].size)
    ensures |movies| == 1 ==> search[1] == search[0]
  {
    search := [];
    for i := 0 to |movies|
      invariant |search| == i
      invariant forall j :: 0 <= j < i ==> search[j] == SearchEntry("eng", movies[j].hash, movies[j].size)
    {
      search := search + [SearchEntry("eng", movies[i].hash, movies[i].size)];
    }
    if |search| == 1 {
      search := search + [search[0]];
    }
  }

  // ---------------------------------------------------------------------
  // Dropping bad subtitles

  /** The subtitle a record stands for. */
  function AsSubtitle(r: SubtitleRecord): Subtitle
  {
    Subtitle(r.idSubtitleFile, r.movieHash)
  }

  /** The records whose SubBad is not 1, as subtitles, in their order. */
  function GoodSubtitles(records: seq<SubtitleRecord>): (r: seq<Subtitle>)
    ensures |r| <= |records|
  {
    if records == [] then []
    else
      var last := records[|records| - 1];
      GoodSubtitles(records[..|records| - 1]) + (if last.subBad != 1 then [AsSubtitle(last)] else [])
  }

  /** The first loop of search_subtitles: collect every record whose SubBad is not 1. */
  method CollectGood(records: seq<SubtitleRecord>) returns (subtitles: seq<Subtitle>)
    ensures subtitles == GoodSubtitles(records)
  {
    subtitles := [];
    for i := 0 to |records|
      invariant subtitles == GoodSubtitles(records[..i])
    {
      assert records[..i + 1][..i] == records[..i];
      if records[i].subBad != 1 {
        subtitles := subtitles + [AsSubtitle(records[i])];
      }
    }
    assert records[..|records|] == records;
  }

  /** Filtering keeps relative order: it distributes over concatenation. */
  lemma {:induction false} GoodSubtitlesAppend(a: seq<SubtitleRecord>, b: seq<SubtitleRecord>)
    ensures GoodSubtitles(a + b) == GoodSubtitles(a) + GoodSubtitles(b)
  {
    if b != [] {
      assert (a + b)[..|a + b| - 1] == a + b[..|b| - 1];
      GoodSubtitlesAppend(a, b[..|b| - 1]);
    } else {
      assert a + b == a;
    }
  }

  /** Record r is good and stands for subtitle s. */
  predicate KeptAs(r: SubtitleRecord, s: Subtitle)
  {
    r.subBad != 1 && AsSubtitle(r) == s
  }

  /**
   * A subtitle is kept iff some record with SubBad other than 1 stands for
   * it; so a subtitle whose records are all bad is dropped.
   */
  lemma {:induction false} GoodSubtitlesMembers(records: seq<SubtitleRecord>, s: Subtitle)
    ensures s in GoodSubtitles(records) <==>
      exists i :: 0 <= i < |records| && KeptAs(records[i], s)
  {
    if records != [] {
      var n := |records|;
      var init := records[..n - 1];
      GoodSubtitlesMembers(init, s);
      if s in GoodSubtitles(records) {
        if s in GoodSubtitles(init) {
          var i :| 0 <= i < |init| && KeptAs(init[i], s);
          assert records[i] == init[i];
        } else {
          assert KeptAs(records[n - 1], s);
        }
      }
      if exists i :: 0 <= i < n && KeptAs(records[i], s) {
        var i :| 0 <= i < n && KeptAs(records[i], s);
        if i < n - 1 {
          assert init[i] == records[i];
          assert s in GoodSubtitles(init);
        }
      }
    }
  }

  // ---------------------------------------------------------------------
  // Dropping adjacent repeats

  /** The position of the first element equal to `x`. */
  function FirstIndex(xs: seq<Subtitle>, x: Subtitle): (k: nat)
    requires x in xs
    ensures k < |xs| && xs[k] == x && x !in xs[..k]
  {
    if xs[0] == x then 0 else 1 + FirstIndex(xs[1..], x)
  }

  /** list.remove: delete the first element equal to `x` (raising ValueError when there is none). */
  function RemoveFirst(xs: seq<Subtitle>, x: Subtitle): (r: seq<Subtitle>)
    requires x in xs
    ensures |r| == |xs| - 1
    ensures multiset(r) == multiset(xs) - multiset{x}
  {
    var k := FirstIndex(xs, x);
    assert xs == xs[..k] + [x] + xs[k + 1..];
    xs[..k] + xs[k + 1..]
  }

  /** The hashes at i - 1 and i are equal. */
  predicate RepeatAt(subs: seq<Subtitle>, i: int)
    requires 0 < i < |subs|
  {
    subs[i - 1].hash == subs[i].hash
  }

  /**
   * The subtitles at the positions below n whose hash equals the previous
   * one's, in order: what the dedup loop hands to list.remove. Only
   * positions from 1 on can repeat.
   */
  function Repeats(subs: seq<Subtitle>, n: nat): (r: seq<Subtitle>)
    requires n <= |subs|
    ensures multiset(r) <= multiset(subs[..n])
  {
    if n < 2 then []
    else
      assert subs[..n] == subs[..n - 1] + [subs[n - 1]];
      Repeats(subs, n - 1) + (if RepeatAt(subs, n - 1) then [subs[n - 1]] else [])
  }

  /** The positions below n whose hash equals the previous one's. */
  function RepeatPositions(subs: seq<Subtitle>, n: nat): set<nat>
    requires n <= |subs|
  {
    set i: nat | 0 < i < n && RepeatAt(subs, i)
  }

  /** One subtitle is listed per repeat position, so the dedup loop removes exactly that many. */
  lemma {:induction false} RepeatsCount(subs: seq<Subtitle>, n: nat)
    requires n <= |subs|
    ensures |Repeats(subs, n)| == |RepeatPositions(subs, n)|
  {
    if n < 2 {
      assert RepeatPositions(subs, n) == {};
    } else {
      RepeatsCount(subs, n - 1);
      RepeatPositionsStep(subs, n);
    }
  }

  /** Position n - 1 joins the repeat positions exactly when it repeats. */
  lemma RepeatPositionsStep(subs: seq<Subtitle>, n: nat)
    requires 2 <= n <= |subs|
    ensures n - 1 !in RepeatPositions(subs, n - 1)
    ensures RepeatPositions(subs, n) ==
      RepeatPositions(subs, n - 1) + (if RepeatAt(subs, n - 1) then {n - 1} else {})
  {
  }

  /** When the loop reaches a repeat at position j, a copy of it is still left to remove. */
  lemma StillPresent(subs: seq<Subtitle>, j: nat)
    requires 0 < j < |subs|
    ensures multiset(Repeats(subs, j)) + multiset{subs[j]} <= multiset(subs)
  {
    PrefixGrow(multiset(Repeats(subs, j)), subs, j);
  }

  /** A sub-multiset of a prefix, plus the next element, is a sub-multiset of the whole. */
  lemma PrefixGrow(m: multiset<Subtitle>, s: seq<Subtitle>, j: nat)
    requires j < |s| && m <= multiset(s[..j])
    ensures m + multiset{s[j]} <= multiset(s)
  {
    assert s[..j + 1] == s[..j] + [s[j]];
    assert s == s[..j + 1] + s[j + 1..];
  }

  /**
   * The copy `downloadable_subs` once the dedup loop has visited the first
   * n subtitles: each visited repeat list.remove'd from it. The value removed
   * is always present, so list.remove never raises, and the copy loses
   * exactly one element per repeat, a copy of that repeat.
   */
  function Sweep(subs: seq<Subtitle>, n: nat): (r: seq<Subtitle>)
    requires n <= |subs|
    ensures multiset(Repeats(subs, n)) <= multiset(subs)
    ensures |r| == |subs| - |Repeats(subs, n)|
    ensures multiset(r) == multiset(subs) - multiset(Repeats(subs, n))
  {
    if n == 0 then subs
    else
      var j := n - 1;
      var prev := Sweep(subs, j);
      if j > 0 && RepeatAt(subs, j) then
        RemoveRepeat(subs, j, prev);
        RemoveFirst(prev, subs[j])
      else
        prev
  }

  /** One removal of the dedup loop keeps the copy equal to the list minus the repeats seen. */
  lemma RemoveRepeat(subs: seq<Subtitle>, j: nat, prev: seq<Subtitle>)
    requires 0 < j < |subs| && RepeatAt(subs, j)
    requires multiset(prev) == multiset(subs) - multiset(Repeats(subs, j))
    ensures subs[j] in prev
    ensures multiset(Repeats(subs, j + 1)) <= multiset(subs)
    ensures multiset(RemoveFirst(prev, subs[j])) == multiset(subs) - multiset(Repeats(subs, j + 1))
  {
    var x := subs[j];
    StillPresent(subs, j);
    assert multiset(Repeats(subs, j + 1)) == multiset(Repeats(subs, j)) + multiset{x};
    assert x in multiset(prev);
  }

  /** The subtitles the dedup loop leaves: one fewer per repeat, each time a copy of the repeat. */
  function Downloadable(subs: seq<Subtitle>): (r: seq<Subtitle>)
    ensures |r| == |subs| - |Repeats(subs, |subs|)|
    ensures multiset(r) == multiset(subs) - multiset(Repeats(subs, |subs|))
  {
    Sweep(subs, |subs|)
  }

  /**
   * The second loop of search_subtitles: walk the filtered list, and when a
   * subtitle's hash equals the previous one's, list.remove it from a copy.
   */
  method DropRepeats(subtitles: seq<Subtitle>) returns (downloadable: seq<Subtitle>)
    ensures downloadable == Downloadable(subtitles)
  {
    downloadable := subtitles;
    var hash: Option<string> := None;
    for i := 0 to |subtitles|
      invariant i == 0 <==> hash == None
      invariant i > 0 ==> hash == Some(subtitles[i - 1].hash)
      invariant downloadable == Sweep(subtitles, i)
    {
      var s := subtitles[i];
      if hash == Some(s.hash) {
        RemoveRepeat(subtitles, i, downloadable);
        downloadable := RemoveFirst(downloadable, s);
      }
      hash := Some(s.hash);
    }
  }

  // ---------------------------------------------------------------------
  // Runs of equal hashes: the first subtitle of each run

  /** No subtitle occurs twice. */
  predicate NoDuplicates(subs: seq<Subtitle>)
  {
    forall i, j :: 0 <= i < j < |subs| ==> subs[i] != subs[j]
  }

  /** Without duplicates, no subtitle occurs before its own position. */
  lemma NotEarlier(subs: seq<Subtitle>, j: nat)
    requires NoDuplicates(subs) && j < |subs|
    ensures subs[j] !in subs[..j]
  {
    assert forall k :: 0 <= k < j ==> subs[..j][k] == subs[k];
  }

  /** Position i starts a run of equal hashes. */
  predicate RunHead(subs: seq<Subtitle>, i: int)
    requires 0 <= i < |subs|
  {
    i == 0 || !RepeatAt(subs, i)
  }

  /**
   * The first subtitle of every run of equal hashes among the first n, in
   * order. The last one carries the hash of position n - 1.
   */
  function RunHeads(subs: seq<Subtitle>, n: nat): (r: seq<Subtitle>)
    requires n <= |subs|
    ensures n > 0 ==> r != [] && r[|r| - 1].hash == subs[n - 1].hash
  {
    if n == 0 then []
    else RunHeads(subs, n - 1) + (if RunHead(subs, n - 1) then [subs[n - 1]] else [])
  }

  /** The first subtitle of each run of equal hashes, in order. */
  function CollapseRuns(subs: seq<Subtitle>): seq<Subtitle>
  {
    RunHeads(subs, |subs|)
  }

  /** After collapsing, neighbours always have different hashes. */
  lemma {:induction false} RunHeadsAlternate(subs: seq<Subtitle>, n: nat)
    requires n <= |subs|
    ensures forall k :: 0 < k < |RunHeads(subs, n)| ==>
      RunHeads(subs, n)[k - 1].hash != RunHeads(subs, n)[k].hash
  {
    if n > 0 {
      RunHeadsAlternate(subs, n - 1);
    }
  }

  /** A subtitle survives collapsing iff it heads a run. */
  lemma {:induction false} RunHeadsMembers(subs: seq<Subtitle>, n: nat, x: Subtitle)
    requires n <= |subs|
    ensures x in RunHeads(subs, n) <==> exists i :: 0 <= i < n && RunHead(subs, i) && subs[i] == x
  {
    if n > 0 {
      RunHeadsMembers(subs, n - 1, x);
      if x in RunHeads(subs, n) && x !in RunHeads(subs, n - 1) {
        assert RunHead(subs, n - 1) && subs[n - 1] == x;
      }
    }
  }

  /** Collapsing loses no hash: every hash among the first n keeps a subtitle. */
  lemma RunHeadsKeepHashes(subs: seq<Subtitle>, n: nat, h: string)
    requires n <= |subs|
    ensures (exists x :: x in RunHeads(subs, n) && x.hash == h) <==> (exists i :: 0 <= i < n && subs[i].hash == h)
  {
    if exists x :: x in RunHeads(subs, n) && x.hash == h {
      var x :| x in RunHeads(subs, n) && x.hash == h;
      RunHeadsMembers(subs, n, x);
    }
    if exists i :: 0 <= i < n && subs[i].hash == h {
      var i :| 0 <= i < n && subs[i].hash == h;
      HashKept(subs, n, i);
    }
  }

  /** The hash of each of the first n subtitles is carried by some run head. */
  lemma {:induction false} HashKept(subs: seq<Subtitle>, n: nat, i: nat)
    requires i < n <= |subs|
    ensures exists x :: x in RunHeads(subs, n) && x.hash == subs[i].hash
  {
    var r := RunHeads(subs, n);
    if i == n - 1 {
      assert r[|r| - 1] in r;
    } else {
      HashKept(subs, n - 1, i);
      var x :| x in RunHeads(subs, n - 1) && x.hash == subs[i].hash;
      assert x in r;
    }
  }

  /** list.remove of an element absent from the front deletes it right after the front. */
  lemma RemoveFirstAfter(a: seq<Subtitle>, x: Subtitle, b: seq<Subtitle>)
    requires x !in a
    ensures x in a + [x] + b
    ensures RemoveFirst(a + [x] + b, x) == a + b
  {
    var xs := a + [x] + b;
    assert xs[..|a|] == a && xs[|a|] == x;
    assert FirstIndex(xs, x) == |a|;
    assert xs[|a| + 1..] == b;
  }

  /** A repeat at j that occurs nowhere before j is removed at its own position. */
  lemma SweepRepeatCase(subs: seq<Subtitle>, j: nat)
    requires 0 < j < |subs| && RepeatAt(subs, j)
    requires subs[j] !in subs[..j]
    requires Sweep(subs, j) == RunHeads(subs, j) + subs[j..]
    ensures Sweep(subs, j + 1) == RunHeads(subs, j + 1) + subs[j + 1..]
  {
    var c, x, b := RunHeads(subs, j), subs[j], subs[j + 1..];
    HeadsBefore(subs, j);
    ShiftOne(c, subs, j);
    SweepRemoves(subs, j);
    RemoveAfterFront(Sweep(subs, j + 1), Sweep(subs, j), c, x, b);
    assert RunHeads(subs, j + 1) == c;
  }

  /** At a repeat, the dedup loop list.remove's the repeat from the copy it holds. */
  lemma SweepRemoves(subs: seq<Subtitle>, j: nat)
    requires 0 < j < |subs| && RepeatAt(subs, j)
    ensures subs[j] in Sweep(subs, j)
    ensures Sweep(subs, j + 1) == RemoveFirst(Sweep(subs, j), subs[j])
  {
    RemoveRepeat(subs, j, Sweep(subs, j));
  }

  /** Removing x from `front + [x] + back`, with x not in front, leaves `front + back`. */
  lemma RemoveAfterFront(after: seq<Subtitle>, before: seq<Subtitle>, front: seq<Subtitle>, x: Subtitle, back: seq<Subtitle>)
    requires before == front + [x] + back && x !in front
    requires x in before && after == RemoveFirst(before, x)
    ensures after == front + back
  {
    RemoveFirstAfter(front, x, back);
  }

  /** A subtitle absent from the first j positions is not among their run heads. */
  lemma HeadsBefore(subs: seq<Subtitle>, j: nat)
    requires j < |subs| && subs[j] !in subs[..j]
    ensures subs[j] !in RunHeads(subs, j)
  {
    RunHeadsMembers(subs, j, subs[j]);
    assert forall i :: 0 <= i < j ==> subs[..j][i] == subs[i];
  }

  /** A run head at j stays in place and leaves the unvisited rest. */
  lemma SweepKeepCase(subs: seq<Subtitle>, j: nat)
    requires j < |subs| && !(j > 0 && RepeatAt(subs, j))
    requires Sweep(subs, j) == RunHeads(subs, j) + subs[j..]
    ensures Sweep(subs, j + 1) == RunHeads(subs, j + 1) + subs[j + 1..]
  {
    ShiftOne(RunHeads(subs, j), subs, j);
    assert Sweep(subs, j + 1) == Sweep(subs, j);
    assert RunHeads(subs, j + 1) == RunHeads(subs, j) + [subs[j]];
  }

  /** Moving the next unvisited element to the end of the visited part leaves the concatenation unchanged. */
  lemma ShiftOne(a: seq<Subtitle>, s: seq<Subtitle>, j: nat)
    requires j < |s|
    ensures a + s[j..] == (a + [s[j]]) + s[j + 1..]
  {
    assert s[j..] == [s[j]] + s[j + 1..];
  }

  /**
   * With no subtitle repeated, each step of the dedup loop removes exactly
   * the subtitle at the current position: after n steps the copy is the
   * collapsed prefix followed by the unvisited rest.
   */
  lemma {:induction false} SweepDistinct(subs: seq<Subtitle>, n: nat)
    requires NoDuplicates(subs) && n <= |subs|
    ensures Sweep(subs, n) == RunHeads(subs, n) + subs[n..]
  {
    if n > 0 {
      var j := n - 1;
      SweepDistinct(subs, j);
      if j > 0 && RepeatAt(subs, j) {
        NotEarlier(subs, j);
        SweepRepeatCase(subs, j);
      } else {
        SweepKeepCase(subs, j);
      }
    }
  }

  /**
   * When no subtitle occurs twice, the dedup loop keeps exactly the first
   * subtitle of each run of equal hashes, in the original order.
   */
  lemma DownloadableDistinct(subs: seq<Subtitle>)
    requires NoDuplicates(subs)
    ensures Downloadable(subs) == CollapseRuns(subs)
  {
    SweepDistinct(subs, |subs|);
    assert subs[|subs|..] == [];
  }

  /**
   * Subtitles of one hash are contiguous, as when the server sorts its answer
   * by movie hash.
   */
  predicate Grouped(subs: seq<Subtitle>)
  {
    forall i, j, k :: 0 <= i < j < k < |subs| && subs[i].hash == subs[k].hash ==> subs[j].hash == subs[k].hash
  }

  /** In a grouped list, the hash starting a new run at n occurs nowhere before n. */
  lemma NewRunHashFresh(subs: seq<Subtitle>, n: nat)
    requires Grouped(subs) && 0 < n < |subs| && !RepeatAt(subs, n)
    ensures forall i :: 0 <= i < n ==> subs[i].hash != subs[n].hash
  {
    forall i | 0 <= i < n
      ensures subs[i].hash != subs[n].hash
    {
      if i < n - 1 {
        GroupedBetween(subs, i, n - 1, n);
      }
    }
  }

  /** A hash found at none of the first n positions is carried by none of their run heads. */
  lemma HeadsMissHash(subs: seq<Subtitle>, n: nat, h: string, y: Subtitle)
    requires n <= |subs| && y in RunHeads(subs, n)
    requires forall i :: 0 <= i < n ==> subs[i].hash != h
    ensures y.hash != h
  {
    RunHeadsMembers(subs, n, y);
  }

  /** In a grouped list, a hash found at i and at k is also found at every j between. */
  lemma GroupedBetween(subs: seq<Subtitle>, i: nat, j: nat, k: nat)
    requires Grouped(subs) && i < j < k < |subs|
    ensures subs[i].hash == subs[k].hash ==> subs[j].hash == subs[k].hash
  {
  }

  /** In a grouped list, only the last run head among the first n carries the hash at n - 1. */
  lemma {:induction false} EarlierHeadsOtherHash(subs: seq<Subtitle>, n: nat)
    requires Grouped(subs) && 0 < n <= |subs|
    ensures forall k :: 0 <= k < |RunHeads(subs, n)| - 1 ==> RunHeads(subs, n)[k].hash != subs[n - 1].hash
  {
    if n > 1 {
      var r, prev := RunHeads(subs, n), RunHeads(subs, n - 1);
      if RunHead(subs, n - 1) {
        assert r == prev + [subs[n - 1]];
        forall k | 0 <= k < |r| - 1
          ensures r[k].hash != subs[n - 1].hash
        {
          assert r[k] == prev[k];
          NewRunHashFresh(subs, n - 1);
          HeadsMissHash(subs, n - 1, subs[n - 1].hash, prev[k]);
        }
      } else {
        assert r == prev;
        EarlierHeadsOtherHash(subs, n - 1);
      }
    }
  }

  /**
   * When only the last run head before j can share the hash at j - 1, the
   * repeat at j is either that head or absent from the run heads; either way list.remove leaves the run heads
   * followed by the unvisited rest.
   */
  lemma SweepGroupedRepeat(subs: seq<Subtitle>, j: nat)
    requires 0 < j < |subs| && RepeatAt(subs, j)
    requires forall k :: 0 <= k < |RunHeads(subs, j)| - 1 ==> RunHeads(subs, j)[k].hash != subs[j - 1].hash
    requires Sweep(subs, j) == RunHeads(subs, j) + subs[j..]
    ensures Sweep(subs, j + 1) == RunHeads(subs, j + 1) + subs[j + 1..]
  {
    var c := RunHeads(subs, j);
    assert RunHeads(subs, j + 1) == c;
    ShiftOne(c, subs, j);
    SweepRemoves(subs, j);
    RemoveBehindHeads(Sweep(subs, j + 1), Sweep(subs, j), c, subs[j], subs[j + 1..], subs[j - 1].hash);
  }

  /**
   * Removing x from `heads + [x] + back`, where only the last of the heads
   * may share x's hash, leaves `heads + back`: list.remove takes either that
   * last head, when it equals x, or x itself.
   */
  lemma RemoveBehindHeads(after: seq<Subtitle>, before: seq<Subtitle>, heads: seq<Subtitle>, x: Subtitle, back: seq<Subtitle>, h: string)
    requires before == heads + [x] + back && heads != []
    requires x.hash == h && forall k :: 0 <= k < |heads| - 1 ==> heads[k].hash != h
    requires x in before && after == RemoveFirst(before, x)
    ensures after == heads + back
  {
    var front, last := heads[..|heads| - 1], heads[|heads| - 1];
    OtherHashAbsent(front, heads, x, h);
    assert heads == front + [last];
    if last == x {
      ShiftCopy(front, x, back);
      RemoveAfterFront(after, before, front, x, [x] + back);
    } else {
      RemoveAfterFront(after, before, heads, x, back);
    }
  }

  /** Regrouping `front + [x] + [x] + back` around its first x. */
  lemma ShiftCopy(front: seq<Subtitle>, x: Subtitle, back: seq<Subtitle>)
    ensures front + [x] + [x] + back == front + [x] + ([x] + back)
    ensures front + ([x] + back) == front + [x] + back
  {
  }

  /** A subtitle is absent from a prefix whose hashes all differ from its own. */
  lemma OtherHashAbsent(front: seq<Subtitle>, heads: seq<Subtitle>, x: Subtitle, h: string)
    requires heads != [] && front == heads[..|heads| - 1]
    requires x.hash == h && forall k :: 0 <= k < |heads| - 1 ==> heads[k].hash != h
    ensures x !in front
  {
    assert forall k :: 0 <= k < |front| ==> front[k] == heads[k];
  }

  /** In a grouped list, after n steps the copy is the collapsed prefix followed by the unvisited rest. */
  lemma {:induction false} SweepGrouped(subs: seq<Subtitle>, n: nat)
    requires Grouped(subs) && n <= |subs|
    ensures Sweep(subs, n) == RunHeads(subs, n) + subs[n..]
  {
    if n > 0 {
      var j := n - 1;
      SweepGrouped(subs, j);
      if j > 0 && RepeatAt(subs, j) {
        EarlierHeadsOtherHash(subs, j);
        SweepGroupedRepeat(subs, j);
      } else {
        SweepKeepCase(subs, j);
      }
    }
  }

  /**
   * When the answer is sorted by movie hash, as the downloader relies on,
   * the dedup loop keeps exactly the first subtitle of each hash, in order,
   * whether or not a subtitle comes back twice.
   */
  lemma DownloadableGrouped(subs: seq<Subtitle>)
    requires Grouped(subs)
    ensures Downloadable(subs) == CollapseRuns(subs)
  {
    SweepGrouped(subs, |subs|);
    assert subs[|subs|..] == [];
  }

  /** In a grouped list, no two run heads share a hash. */
  lemma {:induction false} GroupedHeadsDistinct(subs: seq<Subtitle>, n: nat)
    requires Grouped(subs) && n <= |subs|
    ensures forall a, b :: 0 <= a < b < |RunHeads(subs, n)| ==> RunHeads(subs, n)[a].hash != RunHeads(subs, n)[b].hash
  {
    if n > 0 {
      var r, prev := RunHeads(subs, n), RunHeads(subs, n - 1);
      GroupedHeadsDistinct(subs, n - 1);
      if RunHead(subs, n - 1) {
        var x := subs[n - 1];
        assert r == prev + [x];
        if n > 1 {
          NewRunHashFresh(subs, n - 1);
        }
        forall a | 0 <= a < |prev|
          ensures prev[a].hash != x.hash
        {
          HeadsMissHash(subs, n - 1, x.hash, prev[a]);
        }
        forall a, b | 0 <= a < b < |r|
          ensures r[a].hash != r[b].hash
        {
          assert r[a] == prev[a];
          if b < |prev| {
            assert r[b] == prev[b];
          }
        }
      } else {
        assert r == prev;
      }
    }
  }

  /** On a grouped list the dedup loop keeps one subtitle per hash. */
  lemma DownloadableOnePerHash(subs: seq<Subtitle>)
    requires Grouped(subs)
    ensures forall a, b :: 0 <= a < b < |Downloadable(subs)| ==> Downloadable(subs)[a].hash != Downloadable(subs)[b].hash
  {
    DownloadableGrouped(subs);
    GroupedHeadsDistinct(subs, |subs|);
  }

  /** Records of one movie hash are contiguous, as in an answer sorted by movie hash. */
  predicate RecordsGrouped(records: seq<SubtitleRecord>)
  {
    forall i, j, k :: 0 <= i < j < k < |records| && records[i].movieHash == records[k].movieHash ==>
      records[j].movieHash == records[k].movieHash
  }

  /** In a grouped answer, a movie hash found at i and at k is also found at every j between. */
  lemma RecordsBetween(records: seq<SubtitleRecord>, i: nat, j: nat, k: nat)
    requires RecordsGrouped(records) && i < j < k < |records|
    ensures records[i].movieHash == records[k].movieHash ==> records[j].movieHash == records[k].movieHash
  {
  }

  /** A prefix of a grouped answer is grouped. */
  lemma RecordsGroupedPrefix(records: seq<SubtitleRecord>, m: nat)
    requires RecordsGrouped(records) && m <= |records|
    ensures RecordsGrouped(records[..m])
  {
    var init := records[..m];
    forall i, j, k | 0 <= i < j < k < m && init[i].movieHash == init[k].movieHash
      ensures init[j].movieHash == init[k].movieHash
    {
      assert init[i] == records[i] && init[j] == records[j] && init[k] == records[k];
      RecordsBetween(records, i, j, k);
    }
  }

  /** Appending x keeps a list grouped when any earlier copy of x's hash reaches the end. */
  lemma GroupedSnoc(a: seq<Subtitle>, x: Subtitle)
    requires Grouped(a)
    requires forall i :: 0 <= i < |a| && a[i].hash == x.hash ==> a[|a| - 1].hash == x.hash
    ensures Grouped(a + [x])
  {
    var b := a + [x];
    forall i, j, k | 0 <= i < j < k < |b| && b[i].hash == b[k].hash
      ensures b[j].hash == b[k].hash
    {
      assert b[i] == a[i] && b[j] == a[j];
      if k < |a| {
        assert b[k] == a[k];
        GroupedBetween(a, i, j, k);
      } else if j < |a| - 1 {
        GroupedBetween(a, i, j, |a| - 1);
      }
    }
  }

  /** The last kept subtitle comes from the last record whose SubBad is not 1. */
  lemma {:induction false} LastGoodRecord(records: seq<SubtitleRecord>) returns (q: nat)
    requires GoodSubtitles(records) != []
    ensures q < |records| && records[q].subBad != 1
    ensures GoodSubtitles(records)[|GoodSubtitles(records)| - 1] == AsSubtitle(records[q])
    ensures forall p :: q < p < |records| ==> records[p].subBad == 1
  {
    var m := |records| - 1;
    var init := records[..m];
    if records[m].subBad != 1 {
      q := m;
    } else {
      assert GoodSubtitles(records) == GoodSubtitles(init);
      q := LastGoodRecord(init);
      assert init[q] == records[q];
    }
  }

  /** Dropping the records with SubBad 1 from an answer grouped by movie hash leaves a grouped list. */
  lemma {:induction false} GoodSubtitlesGrouped(records: seq<SubtitleRecord>)
    requires RecordsGrouped(records)
    ensures Grouped(GoodSubtitles(records))
  {
    if records != [] {
      var m := |records| - 1;
      var init := records[..m];
      RecordsGroupedPrefix(records, m);
      GoodSubtitlesGrouped(init);
      var g := GoodSubtitles(init);
      if records[m].subBad != 1 {
        var x := AsSubtitle(records[m]);
        assert GoodSubtitles(records) == g + [x];
        if g != [] {
          var q := LastGoodRecord(init);
          forall i | 0 <= i < |g| && g[i].hash == x.hash
            ensures g[|g| - 1].hash == x.hash
          {
            GoodSubtitlesMembers(init, g[i]);
            var p :| 0 <= p < |init| && KeptAs(init[p], g[i]);
            assert records[p] == init[p] && records[q] == init[q];
            if p < q {
              RecordsBetween(records, p, q, m);
            }
          }
        }
        GroupedSnoc(g, x);
      }
    }
  }

  /**
   * On an answer sorted by movie hash, the subtitles downloaded are the first
   * good subtitle of each hash, one per hash.
   */
  lemma SortedAnswerOnePerHash(records: seq<SubtitleRecord>)
    requires RecordsGrouped(records)
    ensures Downloadable(GoodSubtitles(records)) == CollapseRuns(GoodSubtitles(records))
    ensures forall a, b :: 0 <= a < b < |Downloadable(GoodSubtitles(records))| ==>
      Downloadable(GoodSubtitles(records))[a].hash != Downloadable(GoodSubtitles(records))[b].hash
  {
    GoodSubtitlesGrouped(records);
    DownloadableGrouped(GoodSubtitles(records));
    DownloadableOnePerHash(GoodSubtitles(records));
  }

  /**
   * list.remove deletes the first equal subtitle, which need not be the one
   * at the current position: when a subtitle comes back twice, the earlier
   * copy goes and the kept subtitles change order. This needs an answer
   * that is not sorted by hash: h1 comes back after h2.
   */
  lemma RemoveTakesEarlierCopy()
    ensures var a, x, b := Subtitle("1", "h1"), Subtitle("2", "h2"), Subtitle("3", "h1");
      Downloadable([a, x, b, a]) == [x, b, a] && CollapseRuns([a, x, b, a]) == [a, x, b]
  {
    var a, x, b := Subtitle("1", "h1"), Subtitle("2", "h2"), Subtitle("3", "h1");
    SweepExample(a, x, b);
    RunHeadsExample(a, x, b);
  }

  /** The dedup loop on [a, x, b, a] with only b repeating a's hash removes the first a. */
  lemma SweepExample(a: Subtitle, x: Subtitle, b: Subtitle)
    requires a.hash == b.hash != x.hash
    ensures Sweep([a, x, b, a], 4) == [x, b, a]
  {
    var subs := [a, x, b, a];
    SweepNoRepeats(subs, 3);
    SweepExampleLast(subs);
  }

  /** The last step of SweepExample: the repeat at position 3 removes the copy at position 0. */
  lemma SweepExampleLast(subs: seq<Subtitle>)
    requires |subs| == 4 && subs[3] == subs[0] && subs[2].hash == subs[0].hash
    requires Sweep(subs, 3) == subs
    ensures Sweep(subs, 4) == subs[1..]
  {
    var rest := subs[1..];
    RemoveFirstAfter([], subs[0], rest);
    assert [] + [subs[0]] + rest == subs;
    assert Sweep(subs, 4) == RemoveFirst(subs, subs[3]);
  }

  /** Without a repeat among the first n, the dedup loop leaves the list as it is. */
  lemma {:induction false} SweepNoRepeats(subs: seq<Subtitle>, n: nat)
    requires n <= |subs|
    requires forall j :: 0 < j < n ==> !RepeatAt(subs, j)
    ensures Sweep(subs, n) == subs
  {
    if n > 0 {
      SweepNoRepeats(subs, n - 1);
    }
  }

  /** Collapsing [a, x, b, a] with only b repeating a's hash keeps a, x and b. */
  lemma RunHeadsExample(a: Subtitle, x: Subtitle, b: Subtitle)
    requires a.hash == b.hash != x.hash
    ensures RunHeads([a, x, b, a], 4) == [a, x, b]
  {
    var subs := [a, x, b, a];
    assert RunHeads(subs, 1) == [a];
    assert RunHeads(subs, 2) == [a, x];
    assert RunHeads(subs, 3) == [a, x, b];
  }

  // ---------------------------------------------------------------------
  // Every hash keeps a subtitle

  /** Before the first position of hash h, no repeat carries h. */
  lemma {:induction false} RepeatsBefore(subs: seq<Subtitle>, n: nat, h: string)
    requires n <= |subs|
    requires forall k :: 0 <= k < n - 1 ==> subs[k].hash != h
    ensures forall x :: x in Repeats(subs, n) ==> x.hash != h
  {
    if n >= 2 {
      RepeatsBefore(subs, n - 1, h);
    }
  }

  /** The first position carrying the hash of position j. */
  lemma FirstWithHash(subs: seq<Subtitle>, j: nat) returns (i: nat)
    requires j < |subs|
    ensures i <= j && subs[i].hash == subs[j].hash
    ensures forall k :: 0 <= k < i ==> subs[k].hash != subs[j].hash
  {
    i := 0;
    while subs[i].hash != subs[j].hash
      invariant i <= j
      invariant forall k :: 0 <= k < i ==> subs[k].hash != subs[j].hash
      decreases j - i
    {
      i := i + 1;
    }
  }

  /**
   * The subtitle at the first position of its hash is removed fewer times
   * than it occurs, so a copy of it survives.
   */
  lemma {:induction false} FirstOfHashSurvives(subs: seq<Subtitle>, n: nat, i: nat)
    requires i < n <= |subs|
    requires forall k :: 0 <= k < i ==> subs[k].hash != subs[i].hash
    ensures multiset(Repeats(subs, n))[subs[i]] < multiset(subs[..n])[subs[i]]
  {
    if n == i + 1 {
      FirstOfHashNotRepeated(subs, i);
    } else {
      FirstOfHashSurvives(subs, n - 1, i);
      var extra := RepeatsStep(subs, n);
      assert subs[..n] == subs[..n - 1] + [subs[n - 1]];
      CountStep(Repeats(subs, n - 1), subs[..n - 1], extra, subs[n - 1], subs[i]);
    }
  }

  /** Each position from 1 on adds itself to the repeats when it repeats, and nothing otherwise. */
  lemma RepeatsStep(subs: seq<Subtitle>, n: nat) returns (extra: seq<Subtitle>)
    requires 2 <= n <= |subs|
    ensures extra == [] || extra == [subs[n - 1]]
    ensures Repeats(subs, n) == Repeats(subs, n - 1) + extra
  {
    extra := if RepeatAt(subs, n - 1) then [subs[n - 1]] else [];
  }

  /** Appending at most x on the left and x on the right keeps the count of w strictly smaller on the left. */
  lemma CountStep(a: seq<Subtitle>, b: seq<Subtitle>, extra: seq<Subtitle>, x: Subtitle, w: Subtitle)
    requires multiset(a)[w] < multiset(b)[w]
    requires extra == [] || extra == [x]
    ensures multiset(a + extra)[w] < multiset(b + [x])[w]
  {
  }

  /** Up to the first position of its hash, a subtitle is not yet among the repeats. */
  lemma FirstOfHashNotRepeated(subs: seq<Subtitle>, i: nat)
    requires i < |subs|
    requires forall k :: 0 <= k < i ==> subs[k].hash != subs[i].hash
    ensures multiset(Repeats(subs, i + 1))[subs[i]] == 0 < multiset(subs[..i + 1])[subs[i]]
  {
    var w := subs[i];
    RepeatsBefore(subs, i + 1, w.hash);
    assert w !in multiset(Repeats(subs, i + 1));
    assert subs[..i + 1][i] == w;
    assert w in multiset(subs[..i + 1]);
  }

  /**
   * The dedup loop never costs a hash its subtitle: a hash is carried by a
   * downloadable subtitle iff it is carried by a kept one.
   */
  lemma DownloadableKeepsHashes(subs: seq<Subtitle>, h: string)
    ensures (exists x :: x in Downloadable(subs) && x.hash == h) <==>
      (exists j :: 0 <= j < |subs| && subs[j].hash == h)
  {
    var d := Downloadable(subs);
    if exists x :: x in d && x.hash == h {
      var x :| x in d && x.hash == h;
      assert x in multiset(d);
      assert x in multiset(subs);
      var j :| 0 <= j < |subs| && subs[j] == x;
    }
    if exists j :: 0 <= j < |subs| && subs[j].hash == h {
      var j :| 0 <= j < |subs| && subs[j].hash == h;
      var i := FirstWithHash(subs, j);
      FirstOfHashSurvives(subs, |subs|, i);
      assert subs[..|subs|] == subs;
      assert subs[i] in multiset(d);
    }
  }

  // ---------------------------------------------------------------------
  // Writing the subtitle files

  /** The file a movie's subtitle is saved to: its name with the extension replaced by .srt, in its directory. */
  function SubtitlePath(m: Movie): string
  {
    FileNames.SrtPath(m.dir, m.file)
  }

  /** The writes for one downloaded subtitle: one per movie with its hash, in movie order. */
  function MovieWrites(d: Subtitle, movies: seq<Movie>): seq<Write>
  {
    if movies == [] then []
    else
      var m := movies[|movies| - 1];
      MovieWrites(d, movies[..|movies| - 1]) + (if m.hash == d.hash then [Write(SubtitlePath(m), d.subId)] else [])
  }

  /** The writes for all downloaded subtitles, subtitle by subtitle. */
  function WritePlan(ds: seq<Subtitle>, movies: seq<Movie>): seq<Write>
  {
    if ds == [] then []
    else WritePlan(ds[..|ds| - 1], movies) + MovieWrites(ds[|ds| - 1], movies)
  }

  /**
   * The last loop of search_subtitles: for each downloadable subtitle, write
   * it beside every movie with its hash.
   */
  method PlanWrites(ds: seq<Subtitle>, movies: seq<Movie>) returns (writes: seq<Write>)
    ensures writes == WritePlan(ds, movies)
  {
    writes := [];
    for i := 0 to |ds|
      invariant writes == WritePlan(ds[..i], movies)
    {
      var d := ds[i];
      ghost var before := writes;
      for k := 0 to |movies|
        invariant writes == before + MovieWrites(d, movies[..k])
      {
        var m := movies[k];
        assert movies[..k + 1][..k] == movies[..k];
        if m.hash == d.hash {
          writes := writes + [Write(SubtitlePath(m), d.subId)];
        }
      }
      assert movies[..|movies|] == movies;
      assert ds[..i + 1][..i] == ds[..i];
    }
    assert ds[..|ds|] == ds;
  }

  /** Saving subtitle d for movie m is the write w: m carries d's hash and w puts d at m's subtitle path. */
  predicate MakesWrite(d: Subtitle, m: Movie, w: Write)
  {
    m.hash == d.hash && w == Write(SubtitlePath(m), d.subId)
  }

  /** A subtitle is written to exactly the paths of the movies carrying its hash. */
  lemma {:induction false} MovieWritesMembers(d: Subtitle, movies: seq<Movie>, w: Write)
    ensures w in MovieWrites(d, movies) <==> exists j :: 0 <= j < |movies| && MakesWrite(d, movies[j], w)
  {
    if movies != [] {
      var n := |movies|;
      var init := movies[..n - 1];
      MovieWritesMembers(d, init, w);
      if w in MovieWrites(d, movies) {
        if w in MovieWrites(d, init) {
          var j :| 0 <= j < |init| && MakesWrite(d, init[j], w);
          assert movies[j] == init[j];
        } else {
          assert MakesWrite(d, movies[n - 1], w);
        }
      }
      if exists j :: 0 <= j < n && MakesWrite(d, movies[j], w) {
        var j :| 0 <= j < n && MakesWrite(d, movies[j], w);
        if j < n - 1 {
          assert init[j] == movies[j];
          assert w in MovieWrites(d, init);
        }
      }
    }
  }

  /** The plan holds a write iff one of the downloaded subtitles makes it. */
  lemma {:induction false} WritePlanMembers(ds: seq<Subtitle>, movies: seq<Movie>, w: Write)
    ensures w in WritePlan(ds, movies) <==> exists i :: 0 <= i < |ds| && w in MovieWrites(ds[i], movies)
  {
    if ds != [] {
      var n := |ds|;
      var init := ds[..n - 1];
      var earlier, latest := WritePlan(init, movies), MovieWrites(ds[n - 1], movies);
      assert WritePlan(ds, movies) == earlier + latest;
      WritePlanMembers(init, movies, w);
      if w in earlier {
        var i :| 0 <= i < |init| && w in MovieWrites(init[i], movies);
        assert ds[i] == init[i];
      }
      if exists i :: 0 <= i < n && w in MovieWrites(ds[i], movies) {
        var i :| 0 <= i < n && w in MovieWrites(ds[i], movies);
        if i < n - 1 {
          assert init[i] == ds[i];
        }
      }
    }
  }

  /** The files on disk after the writes, as path to subtitle id: a later write to a path replaces an earlier one. */
  function Saved(writes: seq<Write>): map<string, string>
  {
    if writes == [] then map[]
    else
      var w := writes[|writes| - 1];
      Saved(writes[..|writes| - 1])[w.path := w.subId]
  }

  /** The last write to a path decides what that file holds. */
  lemma {:induction false} LastWriteWins(writes: seq<Write>, k: nat)
    requires k < |writes|
    requires forall l :: k < l < |writes| ==> writes[l].path != writes[k].path
    ensures writes[k].path in Saved(writes) && Saved(writes)[writes[k].path] == writes[k].subId
  {
    if k < |writes| - 1 {
      var init := writes[..|writes| - 1];
      assert init[k] == writes[k];
      LastWriteWins(init, k);
    }
  }

  /** Every saved file comes from some write to its path, with that write's subtitle. */
  lemma {:induction false} SavedFromWrite(writes: seq<Write>, p: string)
    requires p in Saved(writes)
    ensures exists k :: 0 <= k < |writes| && writes[k].path == p && Saved(writes)[p] == writes[k].subId
  {
    var n := |writes|;
    if writes[n - 1].path != p {
      var init := writes[..n - 1];
      SavedFromWrite(init, p);
      var k :| 0 <= k < |init| && init[k].path == p && Saved(init)[p] == init[k].subId;
      assert writes[k] == init[k];
    }
  }

  // ---------------------------------------------------------------------
  // search_subtitles

  /** The outcome of search_subtitles for the movies found and the server's answer. */
  function SearchOutcome(movies: seq<Movie>, resp: Response): Outcome
  {
    if !StatusOk(resp.status) then StatusError(resp.status)
    else match resp.data
      case None => Written([])
      case Some(records) => Written(WritePlan(Downloadable(GoodSubtitles(records)), movies))
  }

  /**
   * search_subtitles: build the request, check the answer's status, keep the
   * good subtitles, drop the repeats and plan the writes. The server's
   * answer is a parameter.
   */
  method SearchSubtitles(movies: seq<Movie>, resp: Response) returns (search: seq<SearchEntry>, outcome: Outcome)
    ensures |search| == if |movies| == 1 then 2 else |movies|
    ensures forall i :: 0 <= i < |movies| ==>
      search[i] == SearchEntry("eng", movies[i].hash, movies[i].size)
    ensures |movies| == 1 ==> search[1] == search[0]
    ensures outcome == SearchOutcome(movies, resp)
  {
    search := BuildSearch(movies);
    if !StatusOk(resp.status) {
      return search, StatusError(resp.status);
    }
    match resp.data {
      case None =>
        outcome := Written([]);
      case Some(records) =>
        var subtitles := CollectGood(records);
        var downloadable := DropRepeats(subtitles);
        var writes := PlanWrites(downloadable, movies);
        outcome := Written(writes);
    }
  }

  /** A status other than "200 OK" in any case stops the search before anything is written. */
  lemma StatusErrorStops(movies: seq<Movie>, resp: Response)
    ensures SearchOutcome(movies, resp).StatusError? <==> !StatusOk(resp.status)
    ensures SearchOutcome(movies, resp).StatusError? ==> SearchOutcome(movies, resp).status == resp.status
  {
  }

  /**
   * Every write puts a subtitle beside a movie whose hash it was found for:
   * a record with SubBad other than 1 and that movie's hash.
   */
  lemma WritesSound(movies: seq<Movie>, resp: Response, w: Write)
    requires SearchOutcome(movies, resp).Written? && w in SearchOutcome(movies, resp).writes
    ensures resp.data.Some?
    ensures exists j, k :: (0 <= j < |movies| && 0 <= k < |resp.data.value| &&
      resp.data.value[k].subBad != 1 && resp.data.value[k].movieHash == movies[j].hash &&
      w == Write(SubtitlePath(movies[j]), resp.data.value[k].idSubtitleFile))
  {
    var records := resp.data.value;
    var subs := GoodSubtitles(records);
    var ds := Downloadable(subs);
    WritePlanMembers(ds, movies, w);
    var i :| 0 <= i < |ds| && w in MovieWrites(ds[i], movies);
    var d := ds[i];
    MovieWritesMembers(d, movies, w);
    var j :| 0 <= j < |movies| && MakesWrite(d, movies[j], w);
    assert d in multiset(ds);
    assert d in multiset(subs);
    GoodSubtitlesMembers(records, d);
    var k :| 0 <= k < |records| && KeptAs(records[k], d);
  }

  /**
   * Every movie for which the answer holds a record with SubBad other than 1
   * gets a subtitle file written beside it.
   */
  lemma WritesComplete(movies: seq<Movie>, resp: Response, j: nat, k: nat)
    requires StatusOk(resp.status) && resp.data.Some?
    requires j < |movies| && k < |resp.data.value|
    requires resp.data.value[k].subBad != 1 && resp.data.value[k].movieHash == movies[j].hash
    ensures SearchOutcome(movies, resp).Written?
    ensures SubtitlePath(movies[j]) in Saved(SearchOutcome(movies, resp).writes)
  {
    var records := resp.data.value;
    var ds := Downloadable(GoodSubtitles(records));
    var x := DownloadedFor(records, k);
    var w := PlannedFor(ds, movies, x, j);
    WrittenIsSaved(WritePlan(ds, movies), w);
  }

  /** A downloadable subtitle is written to the subtitle path of each movie with its hash. */
  lemma PlannedFor(ds: seq<Subtitle>, movies: seq<Movie>, x: Subtitle, j: nat) returns (w: Write)
    requires x in ds && j < |movies| && movies[j].hash == x.hash
    ensures w in WritePlan(ds, movies) && w.path == SubtitlePath(movies[j]) && w.subId == x.subId
  {
    w := Write(SubtitlePath(movies[j]), x.subId);
    assert MakesWrite(x, movies[j], w);
    MovieWritesMembers(x, movies, w);
    var i :| 0 <= i < |ds| && ds[i] == x;
    WritePlanMembers(ds, movies, w);
  }

  /** A record with SubBad other than 1 leaves a downloadable subtitle with its hash. */
  lemma DownloadedFor(records: seq<SubtitleRecord>, k: nat) returns (x: Subtitle)
    requires k < |records| && records[k].subBad != 1
    ensures x in Downloadable(GoodSubtitles(records)) && x.hash == records[k].movieHash
  {
    var subs := GoodSubtitles(records);
    GoodSubtitlesMembers(records, AsSubtitle(records[k]));
    var i :| 0 <= i < |subs| && subs[i] == AsSubtitle(records[k]);
    DownloadableKeepsHashes(subs, records[k].movieHash);
    x :| x in Downloadable(subs) && x.hash == records[k].movieHash;
  }

  /** Every path written to is saved. */
  lemma {:induction false} WrittenIsSaved(writes: seq<Write>, w: Write)
    requires w in writes
    ensures w.path in Saved(writes)
  {
    var n := |writes|;
    if writes[n - 1] != w {
      var init := writes[..n - 1];
      assert w in init;
      WrittenIsSaved(init, w);
    }
  }
}
