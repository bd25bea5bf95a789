/** The two persistent stores and how a scrape merges into them (app.py:175-190):
    the game catalog (game name to its list of reviews) and the image-URL registry.
    Both are held in memory; reading and writing the JSON files is not modelled. */
module Stores {
  import opened Basics
  import opened Reviews

  /** The reviews of `batch`, in batch order, whose key is not in `existing`. */
  function NewReviews(batch: seq<Review>, existing: set<string>): (appended: seq<Review>)
    ensures |appended| <= |batch|
    ensures forall x :: x in appended ==> Key(x) !in existing
  {
    if batch == [] then []
    else
      NewReviews(batch[..|batch| - 1], existing)
      + if Key(batch[|batch| - 1]) in existing then [] else [batch[|batch| - 1]]
  }

  /** The list stored for `game`, or the empty list the merge starts it with. */
  function ReviewsOf(catalog: map<string, seq<Review>>, game: string): seq<Review>
  {
    if game in catalog then catalog[game] else []
  }

  /** The catalog after merging `batch` for `game`: every review whose key is not among
      the keys stored before the merge is appended. The key set is not updated while the
      batch is walked, so two same-key reviews of one batch are both appended. */
  function MergedCatalog(catalog: map<string, seq<Review>>, game: string, batch: seq<Review>): (merged: map<string, seq<Review>>)
    ensures merged.Keys == catalog.Keys + {game}
    ensures ReviewsOf(catalog, game) <= merged[game]
  {
    var stored := ReviewsOf(catalog, game);
    catalog[game := stored + NewReviews(batch, KeySet(stored))]
  }

  /** The registry after offering `imageUrl`: appended when present, non-empty and new. */
  function RegisteredImages(urls: seq<string>, imageUrl: Option<string>): (registry: seq<string>)
    ensures urls <= registry
    ensures |registry| <= |urls| + 1
  {
    if imageUrl.Some? && imageUrl.value != "" && imageUrl.value !in urls then urls + [imageUrl.value] else urls
  }

  predicate NoRepeats(urls: seq<string>)
  {
    forall i, j :: 0 <= i < j < |urls| ==> urls[i] != urls[j]
  }

  /** A review is appended exactly when it is in the batch and its key is not stored. */
  lemma {:induction false} NewReviewsMembers(batch: seq<Review>, existing: set<string>, x: Review)
    ensures x in NewReviews(batch, existing) <==> x in batch && Key(x) !in existing
    decreases |batch|
  {
    if batch != [] {
      var init := batch[..|batch| - 1];
      assert batch == init + [batch[|batch| - 1]];
      NewReviewsMembers(init, existing, x);
    }
  }

  /** Every occurrence of a batch review whose key is not stored is appended, repeats
      included; occurrences whose key is stored are not. */
  lemma {:induction false} NewReviewsCount(batch: seq<Review>, existing: set<string>, x: Review)
    ensures multiset(NewReviews(batch, existing))[x] == if Key(x) in existing then 0 else multiset(batch)[x]
    decreases |batch|
  {
    if batch != [] {
      var init, last := batch[..|batch| - 1], batch[|batch| - 1];
      assert batch == init + [last];
      NewReviewsCount(init, existing, x);
    }
  }

  /** The appended reviews keep their batch order. */
  lemma {:induction false} NewReviewsSubsequence(batch: seq<Review>, existing: set<string>)
    ensures IsSubsequence(NewReviews(batch, existing), batch)
    decreases |batch|
  {
    if batch != [] {
      var init, last := batch[..|batch| - 1], batch[|batch| - 1];
      assert batch == init + [last];
      NewReviewsSubsequence(init, existing);
      var prev := NewReviews(init, existing);
      if Key(last) in existing {
        assert NewReviews(batch, existing) == prev;
        SubsequenceExtend(prev, init, last);
      } else {
        SubsequenceAppendBoth(prev, init, last);
      }
    }
  }

  /** With no key stored, the whole batch is appended, repeats included. */
  lemma {:induction false} NewReviewsNothingStored(batch: seq<Review>)
    ensures NewReviews(batch, {}) == batch
    decreases |batch|
  {
    if batch != [] {
      var init := batch[..|batch| - 1];
      assert batch == init + [batch[|batch| - 1]];
      NewReviewsNothingStored(init);
    }
  }

  /** When every key of the batch is stored, nothing is appended. */
  lemma NewReviewsAllStored(batch: seq<Review>, existing: set<string>)
    requires KeySet(batch) <= existing
    ensures NewReviews(batch, existing) == []
  {
    var appended := NewReviews(batch, existing);
    if appended != [] {
      NewReviewsMembers(batch, existing, appended[0]);
      assert false;
    }
  }

  /** One more batch review extends the appended list as NewReviews says. */
  lemma NewReviewsStep(batch: seq<Review>, existing: set<string>, i: nat)
    requires i < |batch|
    ensures NewReviews(batch[..i + 1], existing)
            == NewReviews(batch[..i], existing) + if Key(batch[i]) in existing then [] else [batch[i]]
  {
    assert batch[..i + 1][..i] == batch[..i];
  }

  /** The merge creates the game's entry, keeps the stored list as a prefix, appends only
      batch reviews with keys not stored before, in batch order, and leaves every other
      game's entry as it was. */
  lemma MergeShape(catalog: map<string, seq<Review>>, game: string, batch: seq<Review>)
    ensures game in MergedCatalog(catalog, game, batch)
    ensures ReviewsOf(catalog, game) <= MergedCatalog(catalog, game, batch)[game]
    ensures forall x ::
              (x in MergedCatalog(catalog, game, batch)[game][|ReviewsOf(catalog, game)|..]) <==>
              (x in batch && Key(x) !in KeySet(ReviewsOf(catalog, game)))
    ensures IsSubsequence(MergedCatalog(catalog, game, batch)[game][|ReviewsOf(catalog, game)|..], batch)
    ensures forall x :: multiset(MergedCatalog(catalog, game, batch)[game][|ReviewsOf(catalog, game)|..])[x]
                        == if Key(x) in KeySet(ReviewsOf(catalog, game)) then 0 else multiset(batch)[x]
    ensures forall g :: g != game ==> (g in MergedCatalog(catalog, game, batch) <==> g in catalog)
    ensures forall g :: g != game && g in catalog ==> MergedCatalog(catalog, game, batch)[g] == catalog[g]
  {
    var stored := ReviewsOf(catalog, game);
    var appended := NewReviews(batch, KeySet(stored));
    assert MergedCatalog(catalog, game, batch)[game][|stored|..] == appended;
    forall x
      ensures x in appended <==> x in batch && Key(x) !in KeySet(stored)
    {
      NewReviewsMembers(batch, KeySet(stored), x);
    }
    NewReviewsSubsequence(batch, KeySet(stored));
    forall x
      ensures multiset(appended)[x] == if Key(x) in KeySet(stored) then 0 else multiset(batch)[x]
    {
      NewReviewsCount(batch, KeySet(stored), x);
    }
  }

  /** After the merge, the game's keys are the stored keys plus the batch's keys. */
  lemma MergeKeys(catalog: map<string, seq<Review>>, game: string, batch: seq<Review>)
    ensures KeySet(MergedCatalog(catalog, game, batch)[game]) == KeySet(ReviewsOf(catalog, game)) + KeySet(batch)
  {
    var stored := ReviewsOf(catalog, game);
    var appended := NewReviews(batch, KeySet(stored));
    KeySetConcat(stored, appended);
    forall k | k in KeySet(batch) && k !in KeySet(stored)
      ensures k in KeySet(appended)
    {
      var x :| x in batch && Key(x) == k;
      NewReviewsMembers(batch, KeySet(stored), x);
    }
    forall k | k in KeySet(appended)
      ensures k in KeySet(batch)
    {
      var x :| x in appended && Key(x) == k;
      NewReviewsMembers(batch, KeySet(stored), x);
    }
  }

  /** Merging the same batch a second time appends nothing. */
  lemma MergeIdempotent(catalog: map<string, seq<Review>>, game: string, batch: seq<Review>)
    ensures MergedCatalog(MergedCatalog(catalog, game, batch), game, batch) == MergedCatalog(catalog, game, batch)
  {
    var once := MergedCatalog(catalog, game, batch);
    MergeKeys(catalog, game, batch);
    NewReviewsAllStored(batch, KeySet(once[game]));
    assert ReviewsOf(once, game) + [] == once[game];
  }

  /** Into a game with no stored reviews, the merge stores the batch exactly as gathered. */
  lemma MergeIntoEmpty(catalog: map<string, seq<Review>>, game: string, batch: seq<Review>)
    requires ReviewsOf(catalog, game) == []
    ensures MergedCatalog(catalog, game, batch)[game] == batch
  {
    var none: seq<Review> := [];
    assert KeySet(none) == {};
    NewReviewsNothingStored(batch);
  }

  /** The stored list is not kept free of repeated keys: a batch holding one review twice
      stores it twice. */
  lemma MergeKeepsBatchDuplicates(game: string, r: Review)
    ensures MergedCatalog(map[], game, [r, r])[game] == [r, r]
  {
    MergeIntoEmpty(map[], game, [r, r]);
  }

  /** The registry keeps its old entries as a prefix, grows by at most the offered URL,
      gains it exactly when it is present, non-empty and new, never repeats an entry it did
      not repeat before, and offering the same URL twice changes nothing more. */
  lemma RegisteredImagesProperties(urls: seq<string>, imageUrl: Option<string>)
    ensures urls <= RegisteredImages(urls, imageUrl)
    ensures |RegisteredImages(urls, imageUrl)| == |urls| + 1 <==>
              imageUrl.Some? && imageUrl.value != "" && imageUrl.value !in urls
    ensures |RegisteredImages(urls, imageUrl)| <= |urls| + 1
    ensures forall u :: u in RegisteredImages(urls, imageUrl) <==> u in urls || (imageUrl == Some(u) && u != "")
    ensures NoRepeats(urls) ==> NoRepeats(RegisteredImages(urls, imageUrl))
    ensures RegisteredImages(RegisteredImages(urls, imageUrl), imageUrl) == RegisteredImages(urls, imageUrl)
  {
  }

  /** The two stores as one request sees them after loading the JSON files. */
  class DataStores {
    var games: map<string, seq<Review>>
    var imageUrls: seq<string>

    constructor (games: map<string, seq<Review>>, imageUrls: seq<string>)
      ensures this.games == games && this.imageUrls == imageUrls
    {
      this.games := games;
      this.imageUrls := imageUrls;
    }

    /** Merges the gathered reviews into the game's entry (app.py:176-183). */
    method MergeReviews(gameName: string, totalReviews: seq<Review>)
      modifies this`games
      ensures games == MergedCatalog(old(games), gameName, totalReviews)
    {
      if gameName !in games {
        games := games[gameName := []];
      }
      ghost var stored := ReviewsOf(old(games), gameName);
      assert games == old(games)[gameName := stored];
      var existingReviews := KeySet(games[gameName]);
      var i := 0;
      assert totalReviews[..0] == [];
      while i < |totalReviews|
        invariant 0 <= i <= |totalReviews|
        invariant existingReviews == KeySet(stored)
        invariant gameName in games && games == old(games)[gameName := games[gameName]]
        invariant games[gameName] == stored + NewReviews(totalReviews[..i], existingReviews)
      {
        var review := totalReviews[i];
        var rid := Key(review);
        NewReviewsStep(totalReviews, existingReviews, i);
        if rid !in existingReviews {
          games := games[gameName := games[gameName] + [review]];
        }
        i := i + 1;
      }
      assert totalReviews[..i] == totalReviews;
    }

    /** Offers the scraped header image URL to the registry (app.py:187-190). */
    method RegisterImage(imageUrl: Option<string>)
      modifies this`imageUrls
      ensures imageUrls == RegisteredImages(old(imageUrls), imageUrl)
    {
      if imageUrl.Some? && imageUrl.value != "" && imageUrl.value !in imageUrls {
        imageUrls := imageUrls + [imageUrl.value];
      }
    }
  }
}
