/** Review records and the identity key the scraper deduplicates them by
    (app.py:119, rebuilt identically at app.py:179 and app.py:181). */
module Reviews {
  import opened Basics

  /** One review card's four text fields, as read from the page (already stripped). */
  datatype Review = Review(recommended: string, hoursPlayed: string, datePosted: string, comment: string)

  /** How many leading characters of the comment enter the identity key. */
  const CommentKeyLength: nat := 30

  /** The identity key `Recommended-Hours-Date-<comment[:30]>`. */
  function Key(r: Review): (k: string)
    ensures r.recommended + "-" <= k
    ensures |k| == |r.recommended| + |r.hoursPlayed| + |r.datePosted| + 3
                   + (if |r.comment| <= CommentKeyLength then |r.comment| else CommentKeyLength)
  {
    r.recommended + "-" + r.hoursPlayed + "-" + r.datePosted + "-" + Take(r.comment, CommentKeyLength)
  }

  /** The keys of a list of reviews (the `existing_reviews` set comprehension). */
  function KeySet(rs: seq<Review>): (keys: set<string>)
    ensures forall r :: r in rs ==> Key(r) in keys
    ensures rs == [] ==> keys == {}
  {
    set r | r in rs :: Key(r)
  }

  lemma KeySetAppend(rs: seq<Review>, r: Review)
    ensures KeySet(rs + [r]) == KeySet(rs) + {Key(r)}
  {
    assert forall x :: x in rs + [r] <==> x in rs || x == r;
  }

  lemma KeySetConcat(a: seq<Review>, b: seq<Review>)
    ensures KeySet(a + b) == KeySet(a) + KeySet(b)
  {
    assert forall x :: x in a + b <==> x in a || x in b;
  }

  /** A key is in KeySet(rs) exactly when some review of rs carries it. */
  lemma KeySetMember(rs: seq<Review>, k: string)
    ensures k in KeySet(rs) <==> exists i :: 0 <= i < |rs| && Key(rs[i]) == k
  {
    if k in KeySet(rs) {
      var r :| r in rs && Key(r) == k;
      var i :| 0 <= i < |rs| && rs[i] == r;
    }
  }

  /** Two reviews that agree on the first three fields and on the first 30 characters of
      their comments share a key, whatever their comments hold after character 30. */
  lemma SameKeyBeyondCommentPrefix(a: Review, b: Review)
    requires a.recommended == b.recommended && a.hoursPlayed == b.hoursPlayed && a.datePosted == b.datePosted
    requires |a.comment| >= CommentKeyLength && |b.comment| >= CommentKeyLength
    requires a.comment[..CommentKeyLength] == b.comment[..CommentKeyLength]
    ensures Key(a) == Key(b)
  {
  }

  /** Only the first 30 characters of the comment reach the key: cutting the comment
      down to them changes nothing. */
  lemma KeyIgnoresCommentTail(r: Review)
    ensures Key(r) == Key(r.(comment := Take(r.comment, CommentKeyLength)))
    ensures |Key(r)| == |r.recommended| + |r.hoursPlayed| + |r.datePosted| + 3
                        + (if |r.comment| <= CommentKeyLength then |r.comment| else CommentKeyLength)
  {
  }

  predicate DashFree(s: string)
  {
    '-' !in s
  }

  lemma DashAfter(x: string, s: string)
    ensures |x| < |x + "-" + s| && (x + "-" + s)[|x|] == '-'
  {
  }

  /** Splitting `x-s` at its first dash recovers `x` and `s` when `x` holds no dash. */
  lemma SplitAtFirstDash(x: string, s: string, y: string, t: string)
    requires DashFree(x) && DashFree(y)
    requires x + "-" + s == y + "-" + t
    ensures x == y && s == t
  {
    var u := x + "-" + s;
    if |x| < |y| {
      DashAfter(x, s);
      assert false;
    } else if |y| < |x| {
      DashAfter(y, t);
      assert false;
    }
    assert x == u[..|x|] == y;
    assert s == u[|x| + 1..] == t;
  }

  /** When none of the first three fields contains a dash, the key identifies a review
      exactly up to the comment's first 30 characters, in both directions. */
  lemma KeyDeterminesFields(a: Review, b: Review)
    requires DashFree(a.recommended) && DashFree(b.recommended)
    requires DashFree(a.hoursPlayed) && DashFree(b.hoursPlayed)
    requires DashFree(a.datePosted) && DashFree(b.datePosted)
    ensures Key(a) == Key(b) <==>
              a.recommended == b.recommended && a.hoursPlayed == b.hoursPlayed && a.datePosted == b.datePosted
              && Take(a.comment, CommentKeyLength) == Take(b.comment, CommentKeyLength)
  {
    var pa, pb := Take(a.comment, CommentKeyLength), Take(b.comment, CommentKeyLength);
    var ra := a.datePosted + "-" + pa;
    var rb := b.datePosted + "-" + pb;
    var ha := a.hoursPlayed + "-" + ra;
    var hb := b.hoursPlayed + "-" + rb;
    assert Key(a) == a.recommended + "-" + ha;
    assert Key(b) == b.recommended + "-" + hb;
    if Key(a) == Key(b) {
      SplitAtFirstDash(a.recommended, ha, b.recommended, hb);
      SplitAtFirstDash(a.hoursPlayed, ra, b.hoursPlayed, rb);
      SplitAtFirstDash(a.datePosted, pa, b.datePosted, pb);
    }
  }

  /** A dash inside a field lets two different reviews share a key. */
  lemma DashInFieldCollides()
    ensures Review("Recommended-1", "2", "d", "c") != Review("Recommended", "1-2", "d", "c")
    ensures Key(Review("Recommended-1", "2", "d", "c")) == Key(Review("Recommended", "1-2", "d", "c"))
  {
  }
}
