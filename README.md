# Steam review scraper: verified model of its collection and merge logic

The repository is a small Flask service (`app.py`). `POST /scrape` takes a game name and
drives a headless browser to the game's Steam store page. It scrolls through the user
reviews and collects at most five review records. It then merges them into two JSON
stores: a catalog from game name to its list of reviews, and a registry of header image
URLs.

This project models the part of that handler that has logic worth verifying:

- **The review identity key** (`Reviews.Key`): `Recommended-Hours-Date-<first 30 characters of the comment>`.
  It is built at `app.py:119` and rebuilt the same way at `app.py:179` and `app.py:181`.
- **One extraction pass** (`Extraction.ExtractReviews`, `extract_reviews`). It walks the
  rendered cards in order and skips a card whose fields cannot be read. It keeps the first
  card of each key (the pass-local `seen_ids` set) and stops at the remaining limit. A card
  is `Option<Review>`: `None` stands for a card whose field lookup raised.
  `Extraction.FirstPerKey` is its specification. `Extraction.FirstsUpTo` is an independent,
  position-based reference definition, and the two are proved equal.
- **The scroll-and-accumulate loop** (`Scraping.Accumulate`). It asks each pass for
  `count_limit - len(total_reviews)` reviews. It stops at the limit, on an empty pass, or
  when the page height did not change. The browser is an oracle: `page(k)` gives the cards
  rendered at pass k and `height(k)` the height read after it.
  `Scraping.Accumulated` is the loop's specification.
- **The store merge** (`Stores.DataStores`). A review is appended only if its key is absent
  from the game's key set as it stood **before** the merge. The image URL is appended only
  if it is present, non-empty and new.
- **The outcome order of the handler** (`Handler.Scrape`). The checks run in this order:
  400 for a missing game name, 500 for a navigation exception, then 404 for either missing
  review control. None of these touches a store. Otherwise the handler merges and returns
  200 with the gathered reviews.

The code has two quirks, and the model keeps both:

- **Repeats across passes.** `seen_ids` is local to one pass, and every pass re-reads every
  rendered card. So the gathered list can hold the same review once per pass
  (`Scraping.RepeatedPassesRepeatReviews`).
- **Repeats within one batch.** The merge never updates its key set while it walks the
  batch. So two same-key reviews of one batch are both stored
  (`Stores.MergeKeepsBatchDuplicates`).

One might expect the catalog to stay free of duplicates by composite key. The code does
not guarantee that, and the model claims no such thing.

## Model

| member | source | states |
|---|---|---|
| Reviews.Key | app.py:119 | the key starts with the recommendation and a dash, and its length is the three field lengths + 3 dashes + min(30, comment length) |
| Reviews.KeySet | app.py:179 | the key set holds the key of every stored review, and is empty for an empty list |
| Extraction.Readable | app.py:109-129 | the readable reviews, one per readable card in card order, are at most as many as the cards (which cards hold them is stated by ReadableMembers) |
| Extraction.FirstPerKey | app.py:104-127 | the `seen_ids` filter keeps at most as many reviews as it reads, all of them from its input |
| Extraction.Extracted | app.py:106-108 | a pass returns nothing for a non-positive limit, and otherwise a prefix of the first-per-key readable reviews |
| Scraping.Gathered | app.py:158-172 | a whole scrape gathers at most `count_limit` reviews |
| Stores.NewReviews | app.py:180-183 | at most the batch is appended, and no appended review has a stored key |
| Stores.MergedCatalog | app.py:176-183 | the merged catalog has the old games plus this one, and the game's old list is a prefix of its new list |
| Stores.RegisteredImages | app.py:188-189 | the registry keeps its old entries as a prefix and grows by at most one |
| Basics.Take | app.py:119 | the comment slice `[:30]` has length min(30, length) and is a prefix of the comment; a non-positive limit gives nothing |
| Reviews.SameKeyBeyondCommentPrefix | app.py:119 | reviews that agree on the first three fields and on the first 30 comment characters share a key, whatever follows |
| Reviews.KeyIgnoresCommentTail | app.py:119 | the key equals the key of the review with its comment cut to 30 characters; its length is the three field lengths + 3 dashes + min(30, comment length) |
| Reviews.KeyDeterminesFields | app.py:119 | for dash-free first three fields: equal keys if and only if equal fields and equal 30-character comment prefixes |
| Reviews.DashInFieldCollides | app.py:119 | a dash inside a field lets two different reviews share a key |
| Extraction.ExtractReviews | app.py:102-130 | the pass returns the first `remainingLimit` of the first-per-key readable reviews: none when the limit is not positive, at most the limit, all of them when fewer, no key twice, in card order |
| Extraction.ExtractedProperties | app.py:106-127 | the same bound, completeness, key-distinctness and subsequence facts, stated of the specification function |
| Extraction.StoppedWalk | app.py:106-108 | breaking when the limit is reached, or running out of cards, yields exactly the specified pass result |
| Extraction.FirstPerKeyOfPrefix | app.py:106-108 | more cards never change what was kept from fewer: the early break only cuts the tail |
| Extraction.UnreadableCardIgnored | app.py:109-129 | inserting an unreadable card anywhere does not change what a pass returns |
| Extraction.ReadableMembers | app.py:109-129 | a review is among the readable ones exactly when some card holds it |
| Extraction.FirstPerKeyDistinct | app.py:119-122 | no two kept reviews share a key |
| Extraction.FirstPerKeyKeys | app.py:119-127 | the kept reviews carry exactly the keys of the input |
| Extraction.FirstPerKeySubsequence | app.py:106-127 | the kept reviews are a subsequence of the input, in card order |
| Extraction.FirstPerKeyIsFirsts | app.py:119-127 | the seen-set filter keeps exactly the reviews that are the first with their key, in order |
| Scraping.Accumulated | app.py:161-172 | gathering only extends what was gathered, and never passes the count limit |
| Scraping.Accumulate | app.py:158-172 | the loop gathers what the specification says, at most `count_limit` reviews, and terminates because every continuing pass adds at least one |
| Scraping.NoReadableCardsGatherNothing | app.py:164-166 | a first pass with no readable card ends the loop with nothing gathered |
| Scraping.UnchangedHeightStopsAfterOnePass | app.py:169-171 | when the height after the first pass equals the initial height, exactly the first pass is gathered |
| Scraping.AccumulatedFromPages | app.py:164-167 | every gathered review is a readable review of some pass |
| Scraping.RepeatedPassesRepeatReviews | app.py:161-172 | a review that stays rendered while the page grows is gathered five times |
| Stores.NewReviewsMembers | app.py:180-183 | a review is appended exactly when it is in the batch and its key was not stored |
| Stores.NewReviewsCount | app.py:180-183 | each batch review with an unstored key is appended as many times as it occurs in the batch; one with a stored key is not appended |
| Stores.NewReviewsSubsequence | app.py:180-183 | appended reviews keep their batch order |
| Stores.NewReviewsNothingStored | app.py:179-183 | with no stored key the whole batch is appended, repeats included |
| Stores.NewReviewsAllStored | app.py:179-183 | when every batch key is stored nothing is appended |
| Stores.MergeShape | app.py:175-183 | the game gets an entry; the old list is a prefix of the new; appended reviews are exactly the batch reviews with unstored keys, each as many times as it occurs in the batch, in batch order; other games are unchanged |
| Stores.MergeKeys | app.py:179-183 | after the merge the game's keys are the stored keys plus the batch keys |
| Stores.MergeIdempotent | app.py:179-183 | merging the same batch again changes nothing |
| Stores.MergeIntoEmpty | app.py:176-183 | into a game with no stored reviews, the batch is stored exactly as gathered |
| Stores.MergeKeepsBatchDuplicates | app.py:179-183 | a batch holding one review twice stores it twice: the catalog is not duplicate-free |
| Stores.RegisteredImagesProperties | app.py:188-189 | the registry keeps its old entries as a prefix and grows by one exactly when the URL is present, non-empty and new; its members are the old ones plus that URL; it stays repeat-free; offering the same URL twice is the same as once |
| Stores.DataStores.MergeReviews | app.py:175-183 | the catalog becomes the merged catalog of the old one |
| Stores.DataStores.RegisterImage | app.py:187-190 | the registry becomes the old registry with the URL offered |
| Handler.Scrape | app.py:138-199 | 400, 500 and the two 404s in source order, each leaving both stores unchanged; otherwise a 200 whose reviews are the gathered list (not the merged catalog entry), with both stores merged |

## Left out

- Browser driving is not modelled: `setup_driver`, `search_game`, `click_first_game`, `extract_image_url`, `click_user_review` with its three click fallbacks, `click_browse_reviews`, scrolling and `time.sleep`. What they yield becomes the `Handler.Session` input.
- Reading a card is not modelled: the `find_element` lookups, `strip()` and the script that reads the comment's last text node. A card arrives as the four strings already read, or as `None` when a lookup raised.
- Flask routing, `home()`, `jsonify` and JSON body parsing are not modelled. The request is reduced to an optional game name.
- File I/O is not modelled: `load_json_file`, `save_json_file` and the directory and file bootstrapping at app.py:15-26. The stores live in memory in `Stores.DataStores`.
- The fallback at app.py:33 returns `{}` for both files, because both paths end in `.json`. So a corrupt image file would load as a dictionary. This is not modelled.
- Handler.Scrape: models only one 500 case, an exception while searching or opening the first result. An exception raised later is not modelled: inside the loop, during the merge, or between the two file writes. Such an exception would give a 500 and could leave the catalog written but the registry not.
- `driver.quit()` in the `finally` block has no state in the model.
- `setup_driver()` runs before the `try` (app.py:145) and is not modelled. If it raises, Flask answers with its own 500, without the JSON error body, and `driver.quit()` never runs. `Handler.Session` cannot represent this case.
- Concurrent requests racing on the two files are not modelled.
- Python slices count code points; the model counts Dafny `char`s. These agree on scalar values, and no normalisation is modelled.
