/**
 The `(id, url)` projection of a user's entries that the clean-duplicates
 pass reads, and reference definitions of which entries are duplicates that
 do not mention the pass's list of seen URLs.
 */
module Entries {

  type EntryId = int

  /** One row of `findAllEntriesIdAndUrlByUserId`: an entry's id and its raw URL. */
  datatype Entry = Entry(id: EntryId, url: string)

  /** The URL column of a sequence of entries. */
  function Urls(es: seq<Entry>): (us: seq<string>)
    ensures |us| == |es|
  {
    seq(|es|, k requires 0 <= k < |es| => es[k].url)
  }

  /** The id column of a sequence of entries. */
  function Ids(es: seq<Entry>): (ids: seq<EntryId>)
    ensures |ids| == |es|
  {
    seq(|es|, k requires 0 <= k < |es| => es[k].id)
  }

  /** No value occurs twice in `s`. */
  predicate Distinct<T(==)>(s: seq<T>) {
    forall i, j :: 0 <= i < j < |s| ==> s[i] != s[j]
  }

  /** Entry ids are primary keys: no two rows share one. */
  predicate IdsDistinct(es: seq<Entry>) {
    forall i, j :: 0 <= i < j < |es| ==> es[i].id != es[j].id
  }

  /** The entry at position `i` has exactly the URL of some earlier entry. */
  predicate IsDuplicateAt(es: seq<Entry>, i: nat)
    requires i < |es|
  {
    exists j :: 0 <= j < i && es[j].url == es[i].url
  }

  /** The entries that are not duplicates of an earlier one, in input order. */
  function Survivors(es: seq<Entry>): seq<Entry>
    decreases |es|
  {
    if es == [] then []
    else Survivors(es[..|es| - 1]) + (if IsDuplicateAt(es, |es| - 1) then [] else [es[|es| - 1]])
  }

  /** The entries that duplicate an earlier one, in input order. */
  function Duplicates(es: seq<Entry>): seq<Entry>
    decreases |es|
  {
    if es == [] then []
    else Duplicates(es[..|es| - 1]) + (if IsDuplicateAt(es, |es| - 1) then [es[|es| - 1]] else [])
  }

  /** The entries of `es` whose id is not in `deleted`: what the store holds after deleting `deleted`. */
  function Remaining(es: seq<Entry>, deleted: seq<EntryId>): seq<Entry>
    decreases |es|
  {
    if es == [] then []
    else Remaining(es[..|es| - 1], deleted) + (if es[|es| - 1].id in deleted then [] else [es[|es| - 1]])
  }

  /** An entry remains exactly when it was in the store and its id was not deleted. */
  lemma {:induction false} RemainingContents(es: seq<Entry>, deleted: seq<EntryId>)
    ensures forall e :: e in Remaining(es, deleted) <==> e in es && e.id !in deleted
    decreases |es|
  {
    if es != [] {
      var init := es[..|es| - 1];
      var last := es[|es| - 1];
      RemainingContents(init, deleted);
      assert es == init + [last];
    }
  }

  /** The set of distinct URLs in `us`. */
  function UrlSet(us: seq<string>): set<string> {
    set u | u in us
  }

  lemma UrlsAppend(es: seq<Entry>, e: Entry)
    ensures Urls(es + [e]) == Urls(es) + [e.url]
  {
  }

  lemma IdsAppend(es: seq<Entry>, e: Entry)
    ensures Ids(es + [e]) == Ids(es) + [e.id]
  {
  }

  /** Whether the last entry is a duplicate is whether its URL occurs among the others. */
  lemma IsDuplicateAtLast(es: seq<Entry>)
    requires es != []
    ensures IsDuplicateAt(es, |es| - 1) <==> es[|es| - 1].url in Urls(es[..|es| - 1])
  {
    var init := es[..|es| - 1];
    var u := es[|es| - 1].url;
    if u in Urls(init) {
      var j :| 0 <= j < |init| && Urls(init)[j] == u;
      assert es[j].url == u;
    }
    if IsDuplicateAt(es, |es| - 1) {
      var j :| 0 <= j < |es| - 1 && es[j].url == u;
      assert Urls(init)[j] == u;
    }
  }

  /** Being a duplicate depends only on the entry and those before it. */
  lemma IsDuplicateAtPrefix(es: seq<Entry>, n: nat, i: nat)
    requires i < n <= |es|
    ensures IsDuplicateAt(es[..n], i) <==> IsDuplicateAt(es, i)
  {
  }

  lemma {:induction false} DuplicatesAreEntries(es: seq<Entry>)
    ensures forall e :: e in Duplicates(es) ==> e in es
    decreases |es|
  {
    if es != [] {
      var init := es[..|es| - 1];
      DuplicatesAreEntries(init);
      assert forall e :: e in init ==> e in es;
    }
  }

  lemma IdsOfDuplicatesAreIds(es: seq<Entry>)
    ensures forall x :: x in Ids(Duplicates(es)) ==> x in Ids(es)
  {
    DuplicatesAreEntries(es);
    var ds := Duplicates(es);
    forall x | x in Ids(ds) ensures x in Ids(es) {
      var k :| 0 <= k < |ds| && Ids(ds)[k] == x;
      assert ds[k] in es;
      var j :| 0 <= j < |es| && es[j] == ds[k];
      assert Ids(es)[j] == x;
    }
  }

  /** A sequence without repetitions has as many distinct elements as it has elements. */
  lemma {:induction false} DistinctCard(us: seq<string>)
    requires Distinct(us)
    ensures |UrlSet(us)| == |us|
    decreases |us|
  {
    if us != [] {
      var init := us[..|us| - 1];
      var last := us[|us| - 1];
      assert us == init + [last];
      assert Distinct(init);
      DistinctCard(init);
      assert UrlSet(us) == UrlSet(init) + {last};
      assert last !in UrlSet(init);
    }
  }

  lemma DistinctAppend(us: seq<string>, u: string)
    ensures Distinct(us + [u]) <==> Distinct(us) && u !in us
  {
    var s := us + [u];
    if Distinct(s) {
      forall i, j | 0 <= i < j < |us| ensures us[i] != us[j] {
        assert s[i] == us[i] && s[j] == us[j];
      }
      forall k | 0 <= k < |us| ensures us[k] != u {
        assert s[k] != s[|us|];
      }
    }
  }
}
