/**
 What one user's clean-duplicates pass computes, stated against the
 reference definitions of `Entries`: which entries it deletes, what its
 seen-URL list holds, how many it counts, and that a second run on what
 is left deletes nothing.
 */
module ScanProperties {
  import opened Entries
  import opened CleanDuplicatesCommand

  /**
   The pass deletes exactly the duplicates, in input order, keeps the URLs
   of exactly the other entries as its seen list, and counts the duplicates.
   */
  lemma {:induction false} ScanMatchesReference(es: seq<Entry>)
    ensures CleanDuplicates(es) == Scan(Ids(Duplicates(es)), Urls(Survivors(es)), |Duplicates(es)|)
    decreases |es|
  {
    if es != [] {
      var init := es[..|es| - 1];
      var last := es[|es| - 1];
      ScanMatchesReference(init);
      SeenListInvariant(init);
      IsDuplicateAtLast(es);
      IdsAppend(Duplicates(init), last);
      UrlsAppend(Survivors(init), last);
    }
  }

  /**
   Row `i` is deleted, and the seen list left as it was, exactly when its
   URL equals the URL of an earlier row; otherwise nothing is deleted and
   its raw URL is appended to the seen list.
   */
  lemma DeletionStep(es: seq<Entry>, i: nat)
    requires i < |es|
    ensures var before := CleanDuplicates(es[..i]);
            var after := CleanDuplicates(es[..i + 1]);
            (after.deleted == before.deleted + [es[i].id] && after.urls == before.urls
              && after.count == before.count + 1) <==> IsDuplicateAt(es, i)
    ensures var before := CleanDuplicates(es[..i]);
            var after := CleanDuplicates(es[..i + 1]);
            !IsDuplicateAt(es, i) ==>
              after.deleted == before.deleted && after.urls == before.urls + [es[i].url]
              && after.count == before.count
  {
    var p := es[..i + 1];
    assert p[..i] == es[..i];
    SeenListInvariant(es[..i]);
    IsDuplicateAtLast(p);
    IsDuplicateAtPrefix(es, i + 1, i);
  }

  lemma {:induction false} DuplicateIdsMembership(es: seq<Entry>)
    requires IdsDistinct(es)
    ensures forall i :: 0 <= i < |es| ==> (es[i].id in Ids(Duplicates(es)) <==> IsDuplicateAt(es, i))
    decreases |es|
  {
    if es != [] {
      var init := es[..|es| - 1];
      var last := es[|es| - 1];
      assert IdsDistinct(init);
      DuplicateIdsMembership(init);
      var before := Ids(Duplicates(init));
      var after := Ids(Duplicates(es));
      assert last.id !in before by {
        IdsOfDuplicatesAreIds(init);
        assert last.id !in Ids(init);
      }
      assert after == before + (if IsDuplicateAt(es, |es| - 1) then [last.id] else []) by {
        IdsAppend(Duplicates(init), last);
      }
      forall i | 0 <= i < |init|
        ensures es[i].id in after <==> IsDuplicateAt(es, i)
      {
        assert es[i].id != last.id;
        IsDuplicateAtPrefix(es, |es| - 1, i);
        assert es[i] == init[i];
      }
    }
  }

  /**
   With ids that are primary keys: an entry is deleted if and only if some
   entry before it, for the same user, has exactly the same URL.
   */
  lemma DeletedIffSeenEarlier(before: seq<Entry>, e: Entry, after: seq<Entry>)
    requires IdsDistinct(before + [e] + after)
    ensures e.id in CleanDuplicates(before + [e] + after).deleted <==> exists d :: d in before && d.url == e.url
  {
    var es := before + [e] + after;
    var i := |before|;
    assert es[i] == e && es[..i] == before;
    ScanMatchesReference(es);
    DuplicateIdsMembership(es);
    if exists d :: d in before && d.url == e.url {
      var d :| d in before && d.url == e.url;
      var j :| 0 <= j < i && before[j] == d;
      assert es[j].url == es[i].url;
    }
  }

  /** The first entry with a given URL is never deleted, and its URL is in the seen list. */
  lemma FirstOccurrenceKept(before: seq<Entry>, e: Entry, after: seq<Entry>)
    requires IdsDistinct(before + [e] + after)
    requires forall d :: d in before ==> d.url != e.url
    ensures e.id !in CleanDuplicates(before + [e] + after).deleted
    ensures e.url in CleanDuplicates(before + [e] + after).urls
  {
    var es := before + [e] + after;
    DeletedIffSeenEarlier(before, e, after);
    SeenListInvariant(es);
    assert Urls(es)[|before|] == e.url;
  }

  /**
   The seen list holds each distinct URL of the input exactly once, in the
   order of the entries that first carry them; those entries have pairwise
   distinct URLs and together carry every URL of the input.
   */
  lemma SeenListIsFirstOccurrences(es: seq<Entry>)
    ensures CleanDuplicates(es).urls == Urls(Survivors(es))
    ensures Distinct(Urls(Survivors(es)))
    ensures UrlSet(Urls(Survivors(es))) == UrlSet(Urls(es))
    ensures forall e :: e in Survivors(es) ==> e in es
  {
    ScanMatchesReference(es);
    SeenListInvariant(es);
    SurvivorsAreEntries(es);
  }

  lemma {:induction false} SurvivorsAreEntries(es: seq<Entry>)
    ensures forall e :: e in Survivors(es) ==> e in es
    decreases |es|
  {
    if es != [] {
      var init := es[..|es| - 1];
      SurvivorsAreEntries(init);
      assert forall e :: e in init ==> e in es;
    }
  }

  /**
   The per-user count is the number of deletions issued, at most the number
   of entries, and exactly the number of entries minus the number of
   distinct URLs among them.
   */
  lemma CountIsEntriesMinusDistinctUrls(es: seq<Entry>)
    ensures CleanDuplicates(es).count == |CleanDuplicates(es).deleted|
    ensures CleanDuplicates(es).count <= |es|
    ensures CleanDuplicates(es).count == |es| - |UrlSet(Urls(es))|
  {
    var r := CleanDuplicates(es);
    SeenListInvariant(es);
    DistinctCard(r.urls);
    assert UrlSet(r.urls) == UrlSet(Urls(es));
  }

  /** The pass deletes nothing if and only if no two entries share a URL; then every URL is kept in order. */
  lemma {:induction false} NothingDeletedIffDistinct(es: seq<Entry>)
    ensures CleanDuplicates(es).count == 0 <==> Distinct(Urls(es))
    ensures Distinct(Urls(es)) ==> CleanDuplicates(es) == Scan([], Urls(es), 0)
    decreases |es|
  {
    if es != [] {
      var init := es[..|es| - 1];
      var last := es[|es| - 1];
      NothingDeletedIffDistinct(init);
      SeenListInvariant(init);
      UrlsAppend(init, last);
      assert es == init + [last];
      DistinctAppend(Urls(init), last.url);
    }
  }

  /**
   Running the pass again on the entries it left (ids are primary keys)
   deletes nothing and rebuilds the same seen list.
   */
  lemma RerunDeletesNothing(es: seq<Entry>)
    requires IdsDistinct(es)
    ensures var r := CleanDuplicates(es);
            var rerun := CleanDuplicates(Remaining(es, r.deleted));
            rerun.deleted == [] && rerun.count == 0 && rerun.urls == r.urls
  {
    var r := CleanDuplicates(es);
    ScanMatchesReference(es);
    DuplicateIdsMembership(es);
    RemainingIsSurvivors(es, r.deleted);
    SeenListInvariant(es);
    NothingDeletedIffDistinct(Survivors(es));
  }

  /** Deleting exactly the ids of the duplicate positions leaves exactly the survivors. */
  lemma {:induction false} RemainingIsSurvivors(es: seq<Entry>, deleted: seq<EntryId>)
    requires forall i :: 0 <= i < |es| ==> (es[i].id in deleted <==> IsDuplicateAt(es, i))
    ensures Remaining(es, deleted) == Survivors(es)
    decreases |es|
  {
    if es != [] {
      var init := es[..|es| - 1];
      forall i | 0 <= i < |init|
        ensures init[i].id in deleted <==> IsDuplicateAt(init, i)
      {
        IsDuplicateAtPrefix(es, |es| - 1, i);
      }
      RemainingIsSurvivors(init, deleted);
    }
  }

  /**
   A pass stopped after the first `i` rows has already issued a prefix of
   the deletions of the full pass, with a prefix of its seen list and no
   larger a count.
   */
  lemma {:induction false} InterruptedPassIsPrefix(es: seq<Entry>, i: nat)
    requires i <= |es|
    ensures CleanDuplicates(es[..i]).deleted <= CleanDuplicates(es).deleted
    ensures CleanDuplicates(es[..i]).urls <= CleanDuplicates(es).urls
    ensures CleanDuplicates(es[..i]).count <= CleanDuplicates(es).count
    decreases |es|
  {
    if i == |es| {
      assert es[..i] == es;
    } else {
      var init := es[..|es| - 1];
      assert init[..i] == es[..i];
      InterruptedPassIsPrefix(init, i);
    }
  }
}
