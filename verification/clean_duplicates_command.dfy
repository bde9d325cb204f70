/**
 The duplicate-cleaning pass of wallabag's `wallabag:clean-duplicates`
 console command. For one user, the pass walks the `(id, url)` rows in the
 order the repository returns them, keeps a list of URLs already seen, and
 deletes (and counts) every entry whose comparison key is already in that
 list; every other entry has its raw URL appended to the list. A cumulative
 counter sums the per-user counts over the users cleaned in one run.

 Deleting an entry through the entity manager is modelled as appending its
 id to the `deleted` sequence of the result.
 */
module CleanDuplicatesCommand {
  import Php
  import opened Entries

  /**
   The test `in_array(substr($url, -1), ['/', '#'], true)`: the URL's last
   character is `/` or `#`. The empty URL has no last character, so
   `substr` gives the empty string and the test fails.
   */
  predicate EndsWithSeparator(url: string) {
    |url| > 0 && url[|url| - 1] in {'/', '#'}
  }

  lemma EndsWithSeparatorIsSubstrTest(url: string)
    ensures EndsWithSeparator(url) <==> Php.Substr(url, -1) in ["/", "#"]
  {
    if |url| > 0 {
      assert Php.Substr(url, -1) == [url[|url| - 1]];
    }
  }

  /**
   The comparison key of a URL. When the URL ends in `/` or `#` the code
   returns `substr($url, 0, strlen($url))`, which is the whole string: the
   key is the URL itself, whatever it ends with.
   */
  function SimilarUrl(url: string): (key: string)
    ensures key == url
  {
    if EndsWithSeparator(url) then Php.SubstrLen(url, 0, |url|) else url
  }

  /** State of one user's pass: ids deleted so far, the seen-URL list, and the per-user count. */
  datatype Scan = Scan(deleted: seq<EntryId>, urls: seq<string>, count: nat)

  /** State before the first row: nothing deleted, nothing seen, count 0. */
  const Start := Scan([], [], 0)

  /** One iteration of the loop over a user's rows. */
  function Step(s: Scan, e: Entry): Scan {
    var url := SimilarUrl(e.url);
    if url in s.urls then
      s.(deleted := s.deleted + [e.id], count := s.count + 1)
    else
      s.(urls := s.urls + [e.url])
  }

  /**
   The pass over one user's rows, in arrival order. Whatever the input, the
   count is the number of deletions and every row is either deleted or has
   its URL put in the seen list.
   */
  function CleanDuplicates(entries: seq<Entry>): (r: Scan)
    ensures r.count == |r.deleted|
    ensures r.count + |r.urls| == |entries|
    ensures entries == [] ==> r.count == 0 && r.deleted == []
    decreases |entries|
  {
    if entries == [] then Start
    else Step(CleanDuplicates(entries[..|entries| - 1]), entries[|entries| - 1])
  }

  /**
   The invariant of the seen list: it repeats no URL, and it holds exactly
   the URLs of the rows scanned so far.
   */
  lemma {:induction false} SeenListInvariant(entries: seq<Entry>)
    ensures Distinct(CleanDuplicates(entries).urls)
    ensures forall u :: u in CleanDuplicates(entries).urls <==> u in Urls(entries)
    decreases |entries|
  {
    if entries != [] {
      var init := entries[..|entries| - 1];
      var last := entries[|entries| - 1];
      SeenListInvariant(init);
      assert entries == init + [last];
      UrlsAppend(init, last);
      var s := CleanDuplicates(init);
      if last.url !in s.urls {
        DistinctAppend(s.urls, last.url);
      }
    }
  }

  lemma CleanDuplicatesPrefixStep(entries: seq<Entry>, i: nat)
    requires i < |entries|
    ensures CleanDuplicates(entries[..i + 1]) == Step(CleanDuplicates(entries[..i]), entries[i])
  {
    assert entries[..i + 1][..i] == entries[..i];
  }

  /** The same pass written as the source's `foreach` loop. */
  method CleanDuplicatesLoop(entries: seq<Entry>) returns (deleted: seq<EntryId>, urls: seq<string>, count: nat)
    ensures Scan(deleted, urls, count) == CleanDuplicates(entries)
  {
    deleted, urls, count := [], [], 0;
    for i := 0 to |entries|
      invariant Scan(deleted, urls, count) == CleanDuplicates(entries[..i])
    {
      ghost var before := Scan(deleted, urls, count);
      var entry := entries[i];
      var url := SimilarUrl(entry.url);
      if url in urls {
        count := count + 1;
        deleted := deleted + [entry.id];
      } else {
        urls := urls + [entry.url];
      }
      assert Scan(deleted, urls, count) == Step(before, entry);
      CleanDuplicatesPrefixStep(entries, i);
    }
    assert entries[..|entries|] == entries;
  }

  /**
   The cumulative counter after cleaning `users` in order, starting from
   `duplicates`: each user's count is added to it once that user's pass ends.
   */
  function Accumulate(duplicates: nat, users: seq<seq<Entry>>): (total: nat)
    ensures total >= duplicates
    ensures users == [] ==> total == duplicates
    decreases |users|
  {
    if users == [] then duplicates
    else Accumulate(duplicates, users[..|users| - 1]) + CleanDuplicates(users[|users| - 1]).count
  }

  /** The all-users run: one pass per user, each adding its count to the counter that starts at 0. */
  method CleanAllUsers(users: seq<seq<Entry>>) returns (duplicates: nat)
    ensures duplicates == Accumulate(0, users)
  {
    duplicates := 0;
    for i := 0 to |users|
      invariant duplicates == Accumulate(0, users[..i])
    {
      assert users[..i + 1][..i] == users[..i];
      assert Accumulate(0, users[..i + 1]) == Accumulate(0, users[..i]) + CleanDuplicates(users[i]).count;
      var deleted, urls, duplicatesCount := CleanDuplicatesLoop(users[i]);
      duplicates := duplicates + duplicatesCount;
    }
    assert users[..|users|] == users;
  }
}
