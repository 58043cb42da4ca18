/** The filename report: every line that the log pattern matches has each
    `HTTP/1.1` deleted from its path, the leftmost `\w+\.\w+` of what remains
    is its filename, a `Counter` counts the filenames, and the counts are
    sorted in descending order. */
module FilenameReport {
  import opened Wrappers
  import opened Text
  import opened LogLine
  import opened StableSort

  /** One record of the report: `{"filename": ..., "count": ...}`. */
  datatype FileCount = FileCount(filename: string, count: int)

  /** Start, dot and end of a match of `\w+\.\w+`. */
  datatype Hit = Hit(start: nat, dot: nat, end: nat)

  // ---------------------------------------------------------------------
  // The filename search

  /** A match of `\w+\.\w+` occupies `s[i..k]`, with its dot at `j`. */
  ghost predicate MatchAt(s: string, i: int, j: int, k: int) {
    0 <= i < j && j + 1 < k <= |s| && s[j] == '.'
    && (forall t :: i <= t < j ==> IsWordChar(s[t]))
    && (forall t :: j < t < k ==> IsWordChar(s[t]))
  }

  /** The end of the run of word characters starting at `i`. */
  function WordEnd(s: string, i: nat): (j: nat)
    requires i <= |s|
    ensures i <= j <= |s|
    ensures forall t :: i <= t < j ==> IsWordChar(s[t])
    ensures j == |s| || !IsWordChar(s[j])
    decreases |s| - i
  {
    if i == |s| || !IsWordChar(s[i]) then i else WordEnd(s, i + 1)
  }

  /** No match starts at `i` when the greedy word run from `i` is not
      followed by a dot and a word character: backtracking the first `\w+`
      only moves the dot's place onto a word character. */
  lemma NoMatchAt(s: string, i: nat)
    requires i < |s|
    requires var j := WordEnd(s, i);
             !(j > i && j + 1 < |s| && s[j] == '.' && IsWordChar(s[j + 1]))
    ensures forall j, k :: !MatchAt(s, i, j, k)
  {
    forall j, k | MatchAt(s, i, j, k) ensures WordEnd(s, i) == j && IsWordChar(s[j + 1]) {
    }
  }

  /** `filename_pattern.search(s)` from index `i` on: each start index is
      tried in turn, and at the first that matches both `\w+` take as many
      characters as they can. */
  function SearchFrom(s: string, i: nat): (r: Option<Hit>)
    requires i <= |s|
    ensures r.Some? ==> i <= r.value.start && MatchAt(s, r.value.start, r.value.dot, r.value.end)
                        && (r.value.end == |s| || !IsWordChar(s[r.value.end]))
    ensures r.Some? ==> forall p, j, k :: i <= p < r.value.start ==> !MatchAt(s, p, j, k)
    ensures r.None? ==> forall p, j, k :: i <= p ==> !MatchAt(s, p, j, k)
    decreases |s| - i
  {
    if i == |s| then None
    else
      var j := WordEnd(s, i);
      if j > i && j + 1 < |s| && s[j] == '.' && IsWordChar(s[j + 1]) then
        Some(Hit(i, j, WordEnd(s, j + 1)))
      else
        NoMatchAt(s, i);
        SearchFrom(s, i + 1)
  }

  /** The `filename` group of `filename_pattern.search(s)`. */
  function FindFilename(s: string): (r: Option<string>)
    ensures r.None? <==> forall p, j, k :: !MatchAt(s, p, j, k)
    ensures r.Some? ==> exists p, j, k :: MatchAt(s, p, j, k) && r.value == s[p..k]
  {
    var h :- SearchFrom(s, 0);
    assert MatchAt(s, h.start, h.dot, h.end);
    Some(s[h.start..h.end])
  }

  /** The filename found is the leftmost match, and both of its word runs are
      as long as they can be: no word character touches it on either side. */
  lemma FilenameMaximal(s: string)
    requires SearchFrom(s, 0).Some?
    ensures var h := SearchFrom(s, 0).value;
            MatchAt(s, h.start, h.dot, h.end)
            && (forall p, j, k :: 0 <= p < h.start ==> !MatchAt(s, p, j, k))
            && (h.start == 0 || !IsWordChar(s[h.start - 1]))
            && (h.end == |s| || !IsWordChar(s[h.end]))
  {
    var h := SearchFrom(s, 0).value;
    if h.start > 0 && IsWordChar(s[h.start - 1]) {
      assert MatchAt(s, h.start - 1, h.dot, h.end);
    }
  }

  /** On `a.b.c` the first word run stops at the first dot and the second at
      the second dot, so the filename is `a.b`. */
  lemma FindFilenameExample()
    ensures FindFilename("a.b.c") == Some("a.b")
  {
    var s := "a.b.c";
    assert s[1] == '.' && s[3] == '.';
    assert WordEnd(s, 1) == 1;
    assert WordEnd(s, 0) == 1;
    assert WordEnd(s, 3) == 3;
    assert WordEnd(s, 2) == 3;
    assert SearchFrom(s, 0) == Some(Hit(0, 1, 3));
    assert s[0..3] == "a.b";
  }

  // ---------------------------------------------------------------------
  // Per line

  /** The filename a line contributes, if any. */
  function LineFilename(line: string): (r: Option<string>)
    ensures r.Some? ==> ParseLine(line).Some?
    ensures r.Some? ==> var path := CleanPath(ParseLine(line).value);
                        exists p, j, k :: MatchAt(path, p, j, k) && r.value == path[p..k]
    ensures r.None? && ParseLine(line).Some? ==>
              forall p, j, k :: !MatchAt(CleanPath(ParseLine(line).value), p, j, k)
  {
    var p :- ParseLine(line);
    FindFilename(CleanPath(p))
  }

  /** The request path with every `HTTP/1.1` deleted. */
  function CleanPath(p: Parsed): string {
    RemoveAll(p.path, HttpVersion)
  }

  /** The filenames of `lines`, in order, one for each line that has one. */
  function Extractions(lines: seq<string>): (r: seq<string>)
    ensures |r| <= |lines|
    ensures forall f :: f in r <==> exists i :: 0 <= i < |lines| && LineFilename(lines[i]) == Some(f)
  {
    SomesMembers(lines, LineFilename);
    Somes(lines, LineFilename)
  }

  /** The position of the first `f` in `xs`. */
  function FirstIndex(xs: seq<string>, f: string): (i: nat)
    requires f in xs
    ensures i < |xs| && xs[i] == f && f !in xs[..i]
  {
    if xs[0] == f then 0
    else
      var i := FirstIndex(xs[1..], f);
      assert xs[..i + 1] == [xs[0]] + xs[1..][..i];
      i + 1
  }

  /** Appending to `xs` moves no first appearance of an element already in it. */
  lemma FirstIndexAppend(xs: seq<string>, x: string, f: string)
    requires f in xs
    ensures FirstIndex(xs + [x], f) == FirstIndex(xs, f)
  {
    var i := FirstIndex(xs, f);
    assert (xs + [x])[..i] == xs[..i];
    FirstIndexUnique(xs + [x], f, i);
  }

  /** The first appearance is the one with no `f` before it. */
  lemma {:induction false} FirstIndexUnique(xs: seq<string>, f: string, i: nat)
    requires i < |xs| && xs[i] == f && f !in xs[..i]
    ensures FirstIndex(xs, f) == i
  {
    if i > 0 {
      assert xs[0] in xs[..i];
      assert xs[..i] == [xs[0]] + xs[1..][..i - 1];
      FirstIndexUnique(xs[1..], f, i - 1);
    }
  }

  /** Every element of `r` occurs in `xs`, and `r` lists them in the order of
      their first appearance in `xs`. */
  predicate InFirstOrder(r: seq<string>, xs: seq<string>) {
    (forall k :: 0 <= k < |r| ==> r[k] in xs)
    && forall a, b :: 0 <= a < b < |r| ==> FirstIndex(xs, r[a]) < FirstIndex(xs, r[b])
  }

  /** One more element keeps the order of first appearances: a new element
      appears last, an old one changes nothing. */
  lemma InFirstOrderAppend(r: seq<string>, xs: seq<string>, x: string)
    requires InFirstOrder(r, xs)
    ensures x in xs ==> InFirstOrder(r, xs + [x])
    ensures x !in xs ==> InFirstOrder(r + [x], xs + [x])
  {
    forall k | 0 <= k < |r| ensures FirstIndex(xs + [x], r[k]) == FirstIndex(xs, r[k]) {
      FirstIndexAppend(xs, x, r[k]);
    }
    if x !in xs {
      var r', xs' := r + [x], xs + [x];
      assert FirstIndex(xs', x) == |xs|;
      forall a, b | 0 <= a < b < |r'| ensures FirstIndex(xs', r'[a]) < FirstIndex(xs', r'[b]) {
        if b == |r| {
          assert r'[a] == r[a];
        }
      }
    }
  }

  /** The distinct elements of `xs` in order of first appearance: the key
      order of a `Counter` filled from `xs`. */
  function FirstSeen(xs: seq<string>): (r: seq<string>)
    ensures forall f :: f in r <==> f in xs
    ensures forall a, b :: 0 <= a < b < |r| ==> r[a] != r[b]
    ensures |r| <= |xs|
  {
    if xs == [] then []
    else
      var init := FirstSeen(xs[..|xs| - 1]);
      assert xs == xs[..|xs| - 1] + [xs[|xs| - 1]];
      if xs[|xs| - 1] in init then init else init + [xs[|xs| - 1]]
  }

  /** The counter's keys come in the order in which they first appear. */
  lemma {:induction false} FirstSeenOrder(xs: seq<string>)
    ensures InFirstOrder(FirstSeen(xs), xs)
  {
    if xs != [] {
      var init, last := xs[..|xs| - 1], xs[|xs| - 1];
      FirstSeenOrder(init);
      assert xs == init + [last];
      InFirstOrderAppend(FirstSeen(init), init, last);
    }
  }

  /** `Counter(xs).items()`: each distinct element with its number of
      occurrences, in first-seen order. */
  function Tally(xs: seq<string>): (r: seq<FileCount>)
    ensures |r| == |FirstSeen(xs)|
  {
    var names := FirstSeen(xs);
    seq(|names|, k requires 0 <= k < |names| => FileCount(names[k], multiset(xs)[names[k]]))
  }

  /** The sort key of `sorted(..., key=lambda item: item[1], reverse=True)`:
      Python's reverse sort is still stable, which is an ascending stable
      sort on the negated count. */
  function DescendingCount(e: FileCount): int {
    -e.count
  }

  /** The report on the filenames `xs`: their tally, sorted by descending
      count. */
  function Ranked(xs: seq<string>): (r: seq<FileCount>)
    ensures multiset(r) == multiset(Tally(xs))
    ensures |r| == |FirstSeen(xs)| <= |xs|
  {
    SortBy(Tally(xs), DescendingCount)
  }

  /** The report for `lines`. */
  function Report(lines: seq<string>): (r: seq<FileCount>)
    ensures |r| <= |lines|
  {
    Ranked(Extractions(lines))
  }

  // ---------------------------------------------------------------------
  // The script's loop

  /** The state of a `Counter` filled from `xs`: its keys in insertion order,
      and the count of each key. */
  ghost predicate Counts(order: seq<string>, counts: map<string, int>, xs: seq<string>) {
    order == FirstSeen(xs) && counts == Multiplicities(xs)
  }

  /** How many times each element of `xs` occurs in it. */
  ghost function Multiplicities(xs: seq<string>): map<string, int> {
    map f | f in xs :: multiset(xs)[f]
  }

  /** Counting one more `f` bumps its multiplicity by one. */
  lemma MultiplicitiesAppend(xs: seq<string>, f: string)
    ensures Multiplicities(xs + [f])
         == Multiplicities(xs)[f := (if f in xs then multiset(xs)[f] else 0) + 1]
  {
    var m, n := Multiplicities(xs + [f]), Multiplicities(xs)[f := (if f in xs then multiset(xs)[f] else 0) + 1];
    assert multiset(xs + [f]) == multiset(xs) + multiset{f};
    forall g ensures g in m <==> g in n {
      assert g in xs + [f] <==> g in xs || g == f;
    }
    forall g | g in m ensures m[g] == n[g] {
      if g != f && g in xs {
        assert g in Multiplicities(xs);
      }
    }
    assert m.Keys == n.Keys;
  }

  /** The first-seen order after one more `f`. */
  lemma FirstSeenAppend(xs: seq<string>, f: string)
    ensures FirstSeen(xs + [f]) == if f in xs then FirstSeen(xs) else FirstSeen(xs) + [f]
  {
    assert (xs + [f])[..|xs|] == xs;
  }

  /** `counter[f] += 1` on a present key: the count goes up in place. */
  lemma CountPresent(order: seq<string>, counts: map<string, int>, xs: seq<string>, f: string)
    requires Counts(order, counts, xs) && f in counts
    ensures Counts(order, counts[f := counts[f] + 1], xs + [f])
  {
    MultiplicitiesAppend(xs, f);
    FirstSeenAppend(xs, f);
  }

  /** `counter[f] += 1` on a new key: it is inserted at the end with count 1. */
  lemma CountNew(order: seq<string>, counts: map<string, int>, xs: seq<string>, f: string)
    requires Counts(order, counts, xs) && f !in counts
    ensures Counts(order + [f], counts[f := 1], xs + [f])
  {
    MultiplicitiesAppend(xs, f);
    FirstSeenAppend(xs, f);
  }

  /** The keys after `counter[f] += 1`: a new key goes at the end. */
  function Inserted(order: seq<string>, counts: map<string, int>, f: string): seq<string> {
    if f in counts then order else order + [f]
  }

  /** The counts after `counter[f] += 1`: a missing key reads as 0. */
  function Bumped(counts: map<string, int>, f: string): map<string, int> {
    counts[f := (if f in counts then counts[f] else 0) + 1]
  }

  /** `counter[f] += 1`, present key or not, keeps the counter's invariant. */
  lemma CountStep(order: seq<string>, counts: map<string, int>, xs: seq<string>, f: string)
    requires Counts(order, counts, xs)
    ensures Counts(Inserted(order, counts, f), Bumped(counts, f), xs + [f])
  {
    if f in counts {
      CountPresent(order, counts, xs, f);
    } else {
      CountNew(order, counts, xs, f);
    }
  }

  /** `collections.Counter` as the script uses it: a dictionary from key to
      count that remembers the order in which keys were inserted. `added`
      is every key ever counted, in order. */
  class Counter {
    var keys: seq<string>
    var counts: map<string, int>
    ghost var added: seq<string>

    ghost predicate Valid()
      reads this
    {
      Counts(keys, counts, added)
    }

    /** `Counter()` */
    constructor()
      ensures Valid() && added == []
    {
      keys := [];
      counts := map[];
      added := [];
    }

    /** `counter[f] += 1`: a missing key reads as 0 and is then stored. */
    method Increment(f: string)
      requires Valid()
      modifies this
      ensures Valid() && added == old(added) + [f]
    {
      CountStep(keys, counts, added, f);
      keys, counts, added := Inserted(keys, counts, f), Bumped(counts, f), added + [f];
    }

    /** `counter.items()`, in key order. */
    function Items(): (r: seq<FileCount>)
      requires Valid()
      reads this
      ensures r == Tally(added)
    {
      var ks, cs := keys, counts;
      var r := seq(|ks|, k requires 0 <= k < |ks| => FileCount(ks[k], cs[ks[k]]));
      assert forall k :: 0 <= k < |ks| ==> r[k] == Tally(added)[k];
      r
    }
  }

  /** The script: a loop over the lines counts each line's filename, then the
      counter's items are sorted by descending count. */
  method CountFilenames(lines: seq<string>) returns (result: seq<FileCount>)
    ensures result == Report(lines)
  {
    var counter := CountLines(lines);
    result := SortBy(counter.Items(), DescendingCount);
  }

  /** The script's loop: every filename a line yields goes into the counter. */
  method CountLines(lines: seq<string>) returns (counter: Counter)
    ensures fresh(counter) && counter.Valid() && counter.added == Extractions(lines)
  {
    counter := new Counter();
    for i := 0 to |lines|
      invariant counter.Valid() && counter.added == Extractions(lines[..i])
    {
      var next := LineFilename(lines[i]);
      SomesStep(lines, LineFilename, i);
      if next.Some? {
        counter.Increment(next.value);
      }
    }
    assert lines[..|lines|] == lines;
  }


  // ---------------------------------------------------------------------
  // What the report says

  /** The extractions of one more line: its filename, if it has one, is
      counted once more, and nothing else changes. */
  lemma ExtractionsAppend(lines: seq<string>, line: string)
    ensures var next := LineFilename(line);
            multiset(Extractions(lines + [line]))
            == multiset(Extractions(lines)) + (if next.Some? then multiset{next.value} else multiset{})
  {
    SomesAppend(lines, line, LineFilename);
  }

  /** Every record of the tally counts its filename's occurrences, and the
      tally holds each extracted filename once. */
  lemma TallyFacts(xs: seq<string>)
    ensures forall k :: 0 <= k < |Tally(xs)| ==>
              Tally(xs)[k].count == multiset(xs)[Tally(xs)[k].filename] >= 1
    ensures forall a, b :: 0 <= a < b < |Tally(xs)| ==> Tally(xs)[a] != Tally(xs)[b]
    ensures forall f :: f in xs <==> FileCount(f, multiset(xs)[f]) in Tally(xs)
  {
    var names := FirstSeen(xs);
    forall k | 0 <= k < |Tally(xs)| ensures Tally(xs)[k].count == multiset(xs)[Tally(xs)[k].filename] >= 1 {
      assert names[k] in xs;
    }
    forall f | f in xs ensures FileCount(f, multiset(xs)[f]) in Tally(xs) {
      var k :| 0 <= k < |names| && names[k] == f;
      assert Tally(xs)[k] == FileCount(f, multiset(xs)[f]);
    }
  }

  /** A sequence without repeated elements holds each at most once. */
  lemma {:induction false} DistinctOnce<T>(s: seq<T>, x: T)
    requires forall a, b :: 0 <= a < b < |s| ==> s[a] != s[b]
    ensures multiset(s)[x] <= 1
  {
    if s != [] {
      DistinctOnce(s[1..], x);
      assert s == [s[0]] + s[1..];
      if s[0] == x {
        assert x !in s[1..];
      }
    }
  }

  /** An element at two places is held at least twice. */
  lemma Twice<T>(s: seq<T>, a: nat, b: nat)
    requires a < b < |s| && s[a] == s[b]
    ensures multiset(s)[s[a]] >= 2
  {
    assert s == s[..b] + s[b..];
    assert s[a] in s[..b];
    assert s[b] in s[b..];
  }

  /** Each record's count is the number of times its filename was extracted,
      and is at least 1. */
  lemma RankedCounts(xs: seq<string>)
    ensures var r := Ranked(xs);
            forall k :: 0 <= k < |r| ==> r[k].count == multiset(xs)[r[k].filename] >= 1
  {
    var r, t := Ranked(xs), Tally(xs);
    TallyFacts(xs);
    forall k | 0 <= k < |r| ensures r[k].count == multiset(xs)[r[k].filename] >= 1 {
      assert r[k] in multiset(t);
    }
  }

  /** Each filename has one record. */
  lemma RankedDistinct(xs: seq<string>)
    ensures var r := Ranked(xs);
            forall a, b :: 0 <= a < b < |r| ==> r[a].filename != r[b].filename
  {
    var r, t := Ranked(xs), Tally(xs);
    TallyFacts(xs);
    forall a, b | 0 <= a < b < |r| ensures r[a].filename != r[b].filename {
      if r[a].filename == r[b].filename {
        RankedCounts(xs);
        assert r[a] == r[b];
        Twice(r, a, b);
        DistinctOnce(t, r[a]);
      }
    }
  }

  /** Every extracted filename has a record, with its count. */
  lemma RankedComplete(xs: seq<string>)
    ensures forall f :: f in xs <==> FileCount(f, multiset(xs)[f]) in Ranked(xs)
  {
    var r, t := Ranked(xs), Tally(xs);
    TallyFacts(xs);
    forall f ensures f in xs <==> FileCount(f, multiset(xs)[f]) in r {
      assert FileCount(f, multiset(xs)[f]) in r <==> FileCount(f, multiset(xs)[f]) in multiset(t);
    }
  }

  /** The report is in descending order of count. */
  lemma RankedDescending(xs: seq<string>)
    ensures var r := Ranked(xs);
            forall a, b :: 0 <= a < b < |r| ==> r[a].count >= r[b].count
  {
    SortBySorted(Tally(xs), DescendingCount);
  }

  /** Ties keep first-seen order: the records sharing a count appear in the
      order in which their filenames were first extracted. */
  lemma RankedTies(xs: seq<string>, c: int)
    ensures WithKey(Ranked(xs), DescendingCount, -c) == WithKey(Tally(xs), DescendingCount, -c)
  {
    SortByStable(Tally(xs), DescendingCount, -c);
  }

  /** Any order that Python's stable sort could produce is the report. */
  lemma RankedIsPythonSort(xs: seq<string>, r: seq<FileCount>)
    requires forall a, b :: 0 <= a < b < |r| ==> r[a].count >= r[b].count
    requires forall c :: WithKey(r, DescendingCount, c) == WithKey(Tally(xs), DescendingCount, c)
    ensures r == Ranked(xs)
  {
    SortByUnique(Tally(xs), r, DescendingCount);
  }

  /** The sum of the counts of `s`. */
  function Total(s: seq<FileCount>): int {
    if s == [] then 0 else s[0].count + Total(s[1..])
  }

  /** The sum of `m`'s counts of `names`. */
  function CountOf(names: seq<string>, m: multiset<string>): int {
    if names == [] then 0 else m[names[0]] + CountOf(names[1..], m)
  }

  lemma {:induction false} TotalInsert(x: FileCount, s: seq<FileCount>)
    ensures Total(Insert(x, s, DescendingCount)) == x.count + Total(s)
    decreases |s|
  {
    if s != [] && DescendingCount(x) > DescendingCount(s[0]) {
      TotalInsert(x, s[1..]);
      assert ([s[0]] + Insert(x, s[1..], DescendingCount))[1..] == Insert(x, s[1..], DescendingCount);
    } else {
      assert ([x] + s)[1..] == s;
    }
  }

  lemma {:induction false} TotalSortBy(s: seq<FileCount>)
    ensures Total(SortBy(s, DescendingCount)) == Total(s)
    decreases |s|
  {
    if s != [] {
      TotalSortBy(s[1..]);
      TotalInsert(s[0], SortBy(s[1..], DescendingCount));
    }
  }

  lemma {:induction false} TotalRecords(names: seq<string>, m: multiset<string>)
    ensures Total(seq(|names|, k requires 0 <= k < |names| => FileCount(names[k], m[names[k]]))) == CountOf(names, m)
    decreases |names|
  {
    if names != [] {
      var s := seq(|names|, k requires 0 <= k < |names| => FileCount(names[k], m[names[k]]));
      var tail := names[1..];
      TotalRecords(tail, m);
      assert s[1..] == seq(|tail|, k requires 0 <= k < |tail| => FileCount(tail[k], m[tail[k]]));
    }
  }

  lemma {:induction false} CountOfAppend(names: seq<string>, f: string, m: multiset<string>)
    ensures CountOf(names + [f], m) == CountOf(names, m) + m[f]
    decreases |names|
  {
    if names != [] {
      CountOfAppend(names[1..], f, m);
      assert (names + [f])[1..] == names[1..] + [f];
    }
  }

  /** Counting one more `f` adds one to the count of a list that holds `f`
      once, and nothing to one that does not hold it. */
  lemma {:induction false} CountOfAdd(names: seq<string>, f: string, m: multiset<string>)
    requires forall a, b :: 0 <= a < b < |names| ==> names[a] != names[b]
    ensures CountOf(names, m + multiset{f}) == CountOf(names, m) + (if f in names then 1 else 0)
    decreases |names|
  {
    if names != [] {
      CountOfAdd(names[1..], f, m);
      if names[0] == f {
        assert f !in names[1..];
      }
    }
  }

  lemma {:induction false} CountOfFirstSeen(xs: seq<string>)
    ensures CountOf(FirstSeen(xs), multiset(xs)) == |xs|
    decreases |xs|
  {
    if xs != [] {
      var init, f := xs[..|xs| - 1], xs[|xs| - 1];
      CountOfFirstSeen(init);
      assert xs == init + [f];
      CountOfAdd(FirstSeen(init), f, multiset(init));
      if f !in FirstSeen(init) {
        CountOfAppend(FirstSeen(init), f, multiset(xs));
      }
    }
  }

  /** The counts add up to the number of extracted filenames, so never to
      more than the number of lines. */
  lemma RankedTotal(xs: seq<string>)
    ensures Total(Ranked(xs)) == |xs|
  {
    TotalSortBy(Tally(xs));
    TotalRecords(FirstSeen(xs), multiset(xs));
    CountOfFirstSeen(xs);
  }

  /** Each line adds at most one to the counts: they add up to no more than
      the number of lines. */
  lemma ReportTotal(lines: seq<string>)
    ensures Total(Report(lines)) <= |lines|
  {
    RankedTotal(Extractions(lines));
  }
}
