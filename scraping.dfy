/** The scroll-and-extract loop of the scrape handler (app.py:158-172). The browser is an
    oracle: `page(k)` is the list of cards rendered when pass k extracts, `height(k)` the page
    height read after pass k, `initialHeight` the height read before the loop. */
module Scraping {
  import opened Basics
  import opened Reviews
  import opened Extraction

  /** `count_limit` (app.py:159). */
  const CountLimit: nat := 5

  /** What the loop has gathered when it starts pass `k` with `total` gathered so far and
      `lastHeight` as the last height read. */
  function Accumulated(page: nat -> seq<Card>, height: nat -> int, countLimit: nat,
                       k: nat, lastHeight: int, total: seq<Review>): (r: seq<Review>)
    ensures total <= r
    ensures |total| <= countLimit ==> |r| <= countLimit
    decreases countLimit - |total|
  {
    if |total| >= countLimit then total
    else
      var batch := Extracted(page(k), countLimit - |total|);
      ExtractedProperties(page(k), countLimit - |total|);
      if batch == [] then total
      else if height(k) == lastHeight then total + batch
      else Accumulated(page, height, countLimit, k + 1, height(k), total + batch)
  }

  /** The reviews a whole scrape gathers. */
  function Gathered(page: nat -> seq<Card>, height: nat -> int, initialHeight: int, countLimit: nat): (total: seq<Review>)
    ensures |total| <= countLimit
  {
    Accumulated(page, height, countLimit, 0, initialHeight, [])
  }

  /** The loop: scroll, extract with the limit still open, stop on an empty pass, on the
      limit, or when the page height no longer changes. */
  method Accumulate(page: nat -> seq<Card>, height: nat -> int, initialHeight: int, countLimit: nat)
    returns (totalReviews: seq<Review>)
    ensures totalReviews == Gathered(page, height, initialHeight, countLimit)
    ensures |totalReviews| <= countLimit
  {
    totalReviews := [];
    var lastHeight := initialHeight;
    var k: nat := 0;
    while |totalReviews| < countLimit
      invariant |totalReviews| <= countLimit
      invariant Accumulated(page, height, countLimit, k, lastHeight, totalReviews)
                == Gathered(page, height, initialHeight, countLimit)
      decreases countLimit - |totalReviews|
    {
      var newReviews := ExtractReviews(page(k), countLimit - |totalReviews|);
      if newReviews == [] {
        break;
      }
      totalReviews := totalReviews + newReviews;
      var newHeight := height(k);
      if newHeight == lastHeight {
        break;
      }
      lastHeight := newHeight;
      k := k + 1;
    }
  }

  /** A first pass that finds no readable card ends the loop with nothing gathered. */
  lemma NoReadableCardsGatherNothing(page: nat -> seq<Card>, height: nat -> int, initialHeight: int, countLimit: nat)
    requires Readable(page(0)) == []
    ensures Gathered(page, height, initialHeight, countLimit) == []
  {
  }

  /** When the first pass leaves the page height unchanged, exactly one pass is gathered. */
  lemma UnchangedHeightStopsAfterOnePass(page: nat -> seq<Card>, height: nat -> int, initialHeight: int, countLimit: nat)
    requires height(0) == initialHeight
    ensures Gathered(page, height, initialHeight, countLimit) == Extracted(page(0), countLimit)
  {
    ExtractedProperties(page(0), countLimit);
  }

  /** Every gathered review is one of the readable reviews of some pass. */
  lemma {:induction false} AccumulatedFromPages(page: nat -> seq<Card>, height: nat -> int, countLimit: nat,
                                                k: nat, lastHeight: int, total: seq<Review>, x: Review)
    requires x in Accumulated(page, height, countLimit, k, lastHeight, total)
    ensures x in total || exists j: nat :: k <= j && x in Readable(page(j))
    decreases countLimit - |total|
  {
    if |total| < countLimit {
      var batch := Extracted(page(k), countLimit - |total|);
      ExtractedProperties(page(k), countLimit - |total|);
      if batch != [] {
        if x in batch {
          assert x in FirstPerKey(Readable(page(k)));
          FirstPerKeySubsequence(Readable(page(k)));
          SubsequenceMembers(FirstPerKey(Readable(page(k))), Readable(page(k)), x);
        } else if height(k) != lastHeight {
          AccumulatedFromPages(page, height, countLimit, k + 1, height(k), total + batch, x);
        }
      }
    }
  }

  /** Each pass re-reads every rendered card with a fresh `seen_ids`, so a review that stays
      on the page is gathered once per pass: the gathered list may repeat a key. */
  lemma RepeatedPassesRepeatReviews(r: Review)
    ensures Gathered((k: nat) => [Some(r)], (k: nat) => k + 1, 0, CountLimit) == [r, r, r, r, r]
  {
    var page: nat -> seq<Card> := (k: nat) => [Some(r)];
    var height: nat -> int := (k: nat) => k + 1;
    var none: seq<Review> := [];
    assert [r][..0] == none && KeySet(none) == {};
    assert FirstPerKey([r]) == [r];
    forall k: nat, n: int | n > 0
      ensures Extracted(page(k), n) == [r]
    {
      var cards := page(k);
      assert cards == [Some(r)] && cards[..0] == [];
      assert Readable(cards) == [r];
    }
    assert Accumulated(page, height, CountLimit, 4, 4, [r, r, r, r]) == [r, r, r, r, r];
    assert Accumulated(page, height, CountLimit, 3, 3, [r, r, r]) == [r, r, r, r, r];
    assert [r, r] + [r] == [r, r, r];
    assert Accumulated(page, height, CountLimit, 2, 2, [r, r]) == [r, r, r, r, r];
    assert [r] + [r] == [r, r];
    assert Accumulated(page, height, CountLimit, 1, 1, [r]) == [r, r, r, r, r];
    assert [] + [r] == [r];
  }
}
