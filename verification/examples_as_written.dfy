/**
 Concrete runs of the pass as the code computes it. Because the comparison
 key is the raw URL, a trailing `/` makes a different URL, in whichever
 order the two entries arrive.
 */
module ExamplesAsWritten {
  import opened Entries
  import opened CleanDuplicatesCommand
  import opened ScanProperties

  /** `http://a.com` and `http://a.com/` are not duplicates: nothing is deleted. */
  lemma TrailingSlashIsNotDuplicate()
    ensures var es := [Entry(1, "http://a.com"), Entry(2, "http://a.com/"), Entry(3, "http://b.com")];
            CleanDuplicates(es) == Scan([], ["http://a.com", "http://a.com/", "http://b.com"], 0)
  {
  }

  /** The other arrival order gives the same outcome. */
  lemma TrailingSlashFirstIsNotDuplicate()
    ensures var es := [Entry(1, "http://a.com/"), Entry(2, "http://a.com")];
            CleanDuplicates(es) == Scan([], ["http://a.com/", "http://a.com"], 0)
  {
  }

  /** An exact repeat is deleted; the first entry with that URL stays. */
  lemma ExactRepeatIsDeleted()
    ensures var es := [Entry(1, "http://a.com"), Entry(2, "http://a.com"), Entry(3, "http://b.com")];
            CleanDuplicates(es) == Scan([2], ["http://a.com", "http://b.com"], 1)
  {
  }

  /** A user with no entries: count 0, nothing deleted. */
  lemma NoEntries()
    ensures CleanDuplicates([]) == Scan([], [], 0)
  {
  }

  /** Over two users the cumulative counter is the first user's count plus the second's. */
  lemma TwoUsersAddUp(u1: seq<Entry>, u2: seq<Entry>)
    ensures Accumulate(0, [u1, u2]) == CleanDuplicates(u1).count + CleanDuplicates(u2).count
  {
  }

  /** Two users with per-user counts 2 and 3 bring the cumulative counter to 5. */
  lemma TwoAndThreeMakeFive()
    ensures var u1 := [Entry(1, "a"), Entry(2, "a"), Entry(3, "a")];
            var u2 := [Entry(4, "b"), Entry(5, "b"), Entry(6, "b"), Entry(7, "b")];
            CleanDuplicates(u1).count == 2 && CleanDuplicates(u2).count == 3
            && Accumulate(0, [u1, u2]) == 5
  {
    var u1 := [Entry(1, "a"), Entry(2, "a"), Entry(3, "a")];
    var u2 := [Entry(4, "b"), Entry(5, "b"), Entry(6, "b"), Entry(7, "b")];
    assert Urls(u1) == ["a", "a", "a"];
    assert UrlSet(Urls(u1)) == {"a"};
    assert Urls(u2) == ["b", "b", "b", "b"];
    assert UrlSet(Urls(u2)) == {"b"};
    CountIsEntriesMinusDistinctUrls(u1);
    CountIsEntriesMinusDistinctUrls(u2);
    TwoUsersAddUp(u1, u2);
  }
}
