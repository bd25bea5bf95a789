/** One extraction pass over the rendered review cards (`extract_reviews`, app.py:102-130). */
module Extraction {
  import opened Basics
  import opened Reviews

  /** A rendered review card: `Some(review)` when all four fields could be read,
      `None` when reading one of them raised (the card is then skipped). */
  type Card = Option<Review>

  /** The reviews of the readable cards, in card order. */
  function Readable(cards: seq<Card>): (rs: seq<Review>)
    ensures |rs| <= |cards|
  {
    if cards == [] then []
    else
      Readable(cards[..|cards| - 1])
      + match cards[|cards| - 1] case Some(r) => [r] case None => []
  }

  /** For each key, the first review carrying it, in input order: the effect of the `seen_ids` filter. */
  function FirstPerKey(rs: seq<Review>): (kept: seq<Review>)
    ensures |kept| <= |rs|
    ensures forall x :: x in kept ==> x in rs
  {
    if rs == [] then []
    else
      var prev := FirstPerKey(rs[..|rs| - 1]);
      if Key(rs[|rs| - 1]) in KeySet(prev) then prev else prev + [rs[|rs| - 1]]
  }

  /** What one pass returns for the given cards and remaining limit. */
  function Extracted(cards: seq<Card>, remainingLimit: int): (batch: seq<Review>)
    ensures remainingLimit <= 0 ==> batch == []
    ensures batch <= FirstPerKey(Readable(cards))
  {
    Take(FirstPerKey(Readable(cards)), remainingLimit)
  }

  /** rs[i] is the first review of rs that carries its key. */
  ghost predicate FirstOfItsKey(rs: seq<Review>, i: nat)
    requires i < |rs|
  {
    forall j :: 0 <= j < i ==> Key(rs[j]) != Key(rs[i])
  }

  /** The reviews among rs[..n] that are first of their key, in order: a reference
      definition by position, independent of the running `seen_ids` set. */
  ghost function FirstsUpTo(rs: seq<Review>, n: nat): seq<Review>
    requires n <= |rs|
  {
    if n == 0 then []
    else FirstsUpTo(rs, n - 1) + if FirstOfItsKey(rs, n - 1) then [rs[n - 1]] else []
  }

  lemma {:induction false} ReadableConcat(a: seq<Card>, b: seq<Card>)
    ensures Readable(a + b) == Readable(a) + Readable(b)
    decreases |b|
  {
    if b == [] {
      assert a + b == a;
    } else {
      var b' := b[..|b| - 1];
      assert (a + b)[..|a + b| - 1] == a + b';
      ReadableConcat(a, b');
    }
  }

  /** A review is readable from the cards exactly when some card holds it. */
  lemma {:induction false} ReadableMembers(cards: seq<Card>, r: Review)
    ensures r in Readable(cards) <==> Some(r) in cards
    decreases |cards|
  {
    if cards != [] {
      var init := cards[..|cards| - 1];
      assert cards == init + [cards[|cards| - 1]];
      ReadableMembers(init, r);
    }
  }

  /** An unreadable card, wherever it stands, does not change what a pass returns. */
  lemma UnreadableCardIgnored(before: seq<Card>, after: seq<Card>, remainingLimit: int)
    ensures Extracted(before + [None] + after, remainingLimit) == Extracted(before + after, remainingLimit)
  {
    var unreadable: seq<Card> := [None];
    assert unreadable[..0] == [];
    assert Readable(unreadable) == [];
    ReadableConcat(before + unreadable, after);
    ReadableConcat(before, unreadable);
    ReadableConcat(before, after);
    assert Readable(before + unreadable + after) == Readable(before + after);
  }

  /** No two reviews kept by the `seen_ids` filter share a key. */
  lemma {:induction false} FirstPerKeyDistinct(rs: seq<Review>)
    ensures forall i, j :: 0 <= i < j < |FirstPerKey(rs)| ==> Key(FirstPerKey(rs)[i]) != Key(FirstPerKey(rs)[j])
    decreases |rs|
  {
    if rs != [] {
      var init, last := rs[..|rs| - 1], rs[|rs| - 1];
      FirstPerKeyDistinct(init);
      var prev := FirstPerKey(init);
      if Key(last) !in KeySet(prev) {
        forall i | 0 <= i < |prev|
          ensures Key(prev[i]) != Key(last)
        {
          assert prev[i] in prev;
        }
      }
    }
  }

  /** Every key of the input is kept: the filter drops repeats, never a new key. */
  lemma {:induction false} FirstPerKeyKeys(rs: seq<Review>)
    ensures KeySet(FirstPerKey(rs)) == KeySet(rs)
    decreases |rs|
  {
    if rs != [] {
      var init, last := rs[..|rs| - 1], rs[|rs| - 1];
      assert rs == init + [last];
      FirstPerKeyKeys(init);
      KeySetAppend(init, last);
      KeySetAppend(FirstPerKey(init), last);
    }
  }

  /** The kept reviews appear in the input, in input order. */
  lemma {:induction false} FirstPerKeySubsequence(rs: seq<Review>)
    ensures IsSubsequence(FirstPerKey(rs), rs)
    decreases |rs|
  {
    if rs != [] {
      var init, last := rs[..|rs| - 1], rs[|rs| - 1];
      assert rs == init + [last];
      FirstPerKeySubsequence(init);
      var prev := FirstPerKey(init);
      if Key(last) in KeySet(prev) {
        SubsequenceExtend(prev, init, last);
      } else {
        SubsequenceAppendBoth(prev, init, last);
      }
    }
  }

  /** The `seen_ids` filter keeps exactly the reviews that are first of their key, in order. */
  lemma {:induction false} FirstPerKeyIsFirsts(rs: seq<Review>, n: nat)
    requires n <= |rs|
    ensures FirstPerKey(rs[..n]) == FirstsUpTo(rs, n)
    decreases n
  {
    if n > 0 {
      var init := rs[..n - 1];
      assert rs[..n][..n - 1] == init;
      FirstPerKeyIsFirsts(rs, n - 1);
      FirstPerKeyKeys(init);
      KeySetMember(init, Key(rs[n - 1]));
      assert Key(rs[n - 1]) in KeySet(FirstPerKey(init)) <==> !FirstOfItsKey(rs, n - 1);
    }
  }

  /** A longer input never changes what the filter kept from a shorter prefix. */
  lemma {:induction false} FirstPerKeyOfPrefix(a: seq<Review>, b: seq<Review>)
    requires a <= b
    ensures FirstPerKey(a) <= FirstPerKey(b)
    decreases |b|
  {
    if |a| < |b| {
      var init := b[..|b| - 1];
      assert a <= init;
      FirstPerKeyOfPrefix(a, init);
    } else {
      assert a == b;
    }
  }

  /** What a pass returns: at most `remainingLimit` reviews (none when it is not positive),
      all of the first-per-key reviews when fewer than the limit, no key twice, in card order. */
  lemma ExtractedProperties(cards: seq<Card>, remainingLimit: int)
    ensures remainingLimit <= 0 ==> Extracted(cards, remainingLimit) == []
    ensures remainingLimit >= 0 ==> |Extracted(cards, remainingLimit)| <= remainingLimit
    ensures |Extracted(cards, remainingLimit)| < remainingLimit ==> Extracted(cards, remainingLimit) == FirstPerKey(Readable(cards))
    ensures forall i, j :: 0 <= i < j < |Extracted(cards, remainingLimit)| ==>
              Key(Extracted(cards, remainingLimit)[i]) != Key(Extracted(cards, remainingLimit)[j])
    ensures IsSubsequence(Extracted(cards, remainingLimit), Readable(cards))
  {
    var all := FirstPerKey(Readable(cards));
    FirstPerKeyDistinct(Readable(cards));
    FirstPerKeySubsequence(Readable(cards));
    SubsequencePrefix(all, Readable(cards), |Extracted(cards, remainingLimit)|);
  }

  /** Stopping the walk after `i` cards, either at the end or with the limit reached,
      yields exactly what a pass returns. */
  lemma StoppedWalk(cards: seq<Card>, i: nat, remainingLimit: int)
    requires i <= |cards|
    requires |FirstPerKey(Readable(cards[..i]))| <= if remainingLimit <= 0 then 0 else remainingLimit
    requires i == |cards| || |FirstPerKey(Readable(cards[..i]))| >= remainingLimit
    ensures FirstPerKey(Readable(cards[..i])) == Extracted(cards, remainingLimit)
  {
    if i == |cards| {
      assert cards[..i] == cards;
    } else {
      ReadableOfPrefix(cards, i);
      FirstPerKeyOfPrefix(Readable(cards[..i]), Readable(cards));
    }
    TakeOfLongerPrefix(FirstPerKey(Readable(cards[..i])), FirstPerKey(Readable(cards)), remainingLimit);
  }

  lemma ReadableOfPrefix(cards: seq<Card>, i: nat)
    requires i <= |cards|
    ensures Readable(cards[..i]) <= Readable(cards)
  {
    var head, tail := cards[..i], cards[i..];
    assert head + tail == cards;
    ReadableConcat(head, tail);
    PrefixOfConcat(Readable(head), Readable(tail));
  }

  lemma PrefixOfConcat<T>(a: seq<T>, b: seq<T>)
    ensures a <= a + b
  {
  }

  /** A prefix that is the whole sequence, or that has reached the limit, is what Take keeps. */
  lemma TakeOfLongerPrefix<T>(walked: seq<T>, all: seq<T>, n: int)
    requires walked <= all
    requires |walked| <= if n <= 0 then 0 else n
    requires walked == all || |walked| >= n
    ensures walked == Take(all, n)
  {
    if n > 0 && walked != all {
      assert walked == all[..n];
    }
  }

  /** One more card extends the walk as FirstPerKey says. */
  lemma WalkStep(cards: seq<Card>, i: nat)
    requires i < |cards|
    ensures FirstPerKey(Readable(cards[..i + 1])) ==
              match cards[i]
              case None => FirstPerKey(Readable(cards[..i]))
              case Some(r) =>
                if Key(r) in KeySet(FirstPerKey(Readable(cards[..i]))) then FirstPerKey(Readable(cards[..i]))
                else FirstPerKey(Readable(cards[..i])) + [r]
  {
    assert cards[..i + 1][..i] == cards[..i];
    var sofar := Readable(cards[..i]);
    match cards[i] {
      case None =>
        assert Readable(cards[..i + 1]) == sofar;
      case Some(r) =>
        assert (sofar + [r])[..|sofar|] == sofar;
    }
  }

  /** extract_reviews: walks the cards in order, skips unreadable ones, keeps the first card
      of each key, and stops once `remainingLimit` reviews are kept. */
  method ExtractReviews(cards: seq<Card>, remainingLimit: int) returns (extracted: seq<Review>)
    ensures extracted == Extracted(cards, remainingLimit)
    ensures remainingLimit <= 0 ==> extracted == []
    ensures remainingLimit >= 0 ==> |extracted| <= remainingLimit
    ensures |extracted| < remainingLimit ==> extracted == FirstPerKey(Readable(cards))
    ensures forall i, j :: 0 <= i < j < |extracted| ==> Key(extracted[i]) != Key(extracted[j])
    ensures IsSubsequence(extracted, Readable(cards))
  {
    extracted := [];
    var seenIds: set<string> := {};
    var i := 0;
    while i < |cards|
      invariant 0 <= i <= |cards|
      invariant extracted == FirstPerKey(Readable(cards[..i]))
      invariant seenIds == KeySet(extracted)
      invariant |extracted| <= if remainingLimit <= 0 then 0 else remainingLimit
    {
      if |extracted| >= remainingLimit {
        break;
      }
      WalkStep(cards, i);
      match cards[i] {
        case None =>
        case Some(r) =>
          var reviewId := Key(r);
          if reviewId !in seenIds {
            KeySetAppend(extracted, r);
            seenIds := seenIds + {reviewId};
            extracted := extracted + [r];
          }
      }
      i := i + 1;
    }
    StoppedWalk(cards, i, remainingLimit);
    ExtractedProperties(cards, remainingLimit);
  }
}
