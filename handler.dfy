/** The `POST /scrape` handler (app.py:138-199) with the browser as an input: which
    response it gives and what it leaves in the two stores. */
module Handler {
  import opened Basics
  import opened Reviews
  import opened Extraction
  import opened Scraping
  import opened Stores

  /** What the browser session yields, step by step. */
  datatype Session = Session(
    navigationError: Option<string>,  // message of the exception raised while searching or opening the first result
    imageUrl: Option<string>,         // header image URL, None when it did not appear in time
    userReviewsClicked: bool,         // the second "user reviews summary" link was found and clicked
    browseClicked: bool,              // the "browse all reviews" control was found and clicked
    initialHeight: int,               // page height read before the loop
    page: nat -> seq<Card>,           // cards rendered when pass k extracts
    height: nat -> int)               // page height read after pass k

  datatype Response =
    | Scraped(gameName: string, imageUrl: Option<string>, reviews: seq<Review>)  // 200
    | Failed(status: nat, error: string)

  const MissingGameName := "Missing 'game_name' in JSON body"
  const UserReviewsNotFound := "User reviews section not found"
  const BrowseReviewsNotFound := "Browse all reviews link not found"
  const ExceptionPrefix := "Exception occurred: "

  /** Every step before the loop succeeded. */
  predicate ReachesLoop(gameName: Option<string>, session: Session)
  {
    gameName.Some? && session.navigationError.None? && session.userReviewsClicked && session.browseClicked
  }

  /** scrape: 400 without a game name, 500 when navigation raised, 404 when either review
      control is missing (all of these before any store is touched); otherwise gathers the
      reviews, merges them into the catalog, offers the image URL to the registry, and
      answers with the gathered reviews (not the merged catalog entry). */
  method Scrape(stores: DataStores, gameName: Option<string>, session: Session) returns (response: Response)
    modifies stores
    ensures gameName.None? ==> response == Failed(400, MissingGameName)
    ensures gameName.Some? && session.navigationError.Some? ==>
              response == Failed(500, ExceptionPrefix + session.navigationError.value)
    ensures gameName.Some? && session.navigationError.None? && !session.userReviewsClicked ==>
              response == Failed(404, UserReviewsNotFound)
    ensures gameName.Some? && session.navigationError.None? && session.userReviewsClicked && !session.browseClicked ==>
              response == Failed(404, BrowseReviewsNotFound)
    ensures !ReachesLoop(gameName, session) ==>
              stores.games == old(stores.games) && stores.imageUrls == old(stores.imageUrls)
    ensures ReachesLoop(gameName, session) ==>
              && response == Scraped(gameName.value, session.imageUrl,
                                     Gathered(session.page, session.height, session.initialHeight, CountLimit))
              && stores.games == MergedCatalog(old(stores.games), gameName.value, response.reviews)
              && stores.imageUrls == RegisteredImages(old(stores.imageUrls), session.imageUrl)
  {
    if gameName.None? {
      return Failed(400, MissingGameName);
    }
    var name := gameName.value;
    if session.navigationError.Some? {
      return Failed(500, ExceptionPrefix + session.navigationError.value);
    }
    var imageUrl := session.imageUrl;
    if !session.userReviewsClicked {
      return Failed(404, UserReviewsNotFound);
    }
    if !session.browseClicked {
      return Failed(404, BrowseReviewsNotFound);
    }
    var totalReviews := Accumulate(session.page, session.height, session.initialHeight, CountLimit);
    stores.MergeReviews(name, totalReviews);
    stores.RegisterImage(imageUrl);
    response := Scraped(name, imageUrl, totalReviews);
  }
}
