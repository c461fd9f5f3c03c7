# Photo names of the capture server

The capture server stores each uploaded photo under a name made from the upload time,
`photo_<milliseconds>.jpg`. Its `GET /photos` listing reads the upload directory. It keeps the
entries whose names end in `.jpg`, `.jpeg` or `.png`, in any letter case. It then sorts them
newest first by the number it reads back out of each name. This project models that naming
convention in Dafny and proves how its three parts fit together:

- `PhotoNames.PhotoName` is the name the multer `filename` callback produces;
- `PhotoNames.IsImageName` is the extension filter;
- `PhotoNames.TimestampOf` reads the timestamp back the way the comparator does:
  `parseInt(name.split('_')[1].split('.')[0])`;
- `PhotoListing.ListPhotos` is the filter followed by the sort.

The JavaScript built-ins this relies on are modelled in `JsText`. That module covers `split`
with a one-character separator and `parseInt` without a radix: leading white space, one
optional sign, a `0x` prefix, the longest digit run, and NaN when no digit follows the sign or prefix. It also
covers the decimal rendering of a non-negative integer inside a template string.

Errors are values. The comparator throws a `TypeError` when a name has no `_`, because
`split('_')[1]` is `undefined`. The model reports this as `Err(ComparatorThrows)`. A name
whose timestamp is NaN can make the comparator inconsistent, and the order is then up to the
engine. The model reports this as `Err(NoTimestamp)`. `Array.prototype.sort` does not call the
comparator for fewer than two entries, so a lone image is listed whatever its name.

The handler's only explicit error branch is the directory-read error (server.js:52-54). With
two or more images, one named without `_` also makes the comparator throw, because
`split('_')[1]` is `undefined` (server.js:61). The model states this failure in the contract of
`PhotoListing.ListPhotos` and shows it on an example in `PhotoListing.ForeignImageBreaksListing`.

Files: `wrappers.dfy` (Option and Result), `js_text.dfy` (module `JsText`), `photo_names.dfy`
(module `PhotoNames`) and `photo_listing.dfy` (module `PhotoListing`).

## Model

| member | source | states |
|---|---|---|
| PhotoNames.PhotoName | server.js:26-29 | The stored name is `photo_`, then decimal digits without a leading zero (except for 0 itself), then `.jpg`; the digits denote the timestamp |
| JsText.Decimal | server.js:28 | The template-string rendering of a non-negative integer is non-empty and all digits; it starts with `0` exactly for zero |
| JsText.DecimalValue | server.js:28 | The rendered digits denote the number they were rendered from |
| PhotoNames.PhotoNameInjective | server.js:26-29 | Uploads at distinct milliseconds get distinct names |
| PhotoNames.EndsWithCompares | server.js:59 | The suffix test is a character-by-character comparison, under case folding, of the last characters of the name with the extension |
| PhotoNames.ImageNameMatchesPattern | server.js:59 | A name passes the filter if and only if the case-insensitive pattern (a dot, then `jpg`, `jpeg` or `png`, then the end of the name) matches it at some index |
| PhotoNames.ImageNameMatches | server.js:59 | Every name that passes the filter is matched by the pattern at some index |
| PhotoNames.MatchIsImageName | server.js:59 | Every name the pattern matches passes the filter |
| PhotoNames.SuffixIsAlternative | server.js:59 | A case-insensitive extension suffix is an alternative of the pattern matching where the suffix starts |
| PhotoNames.AlternativeIsSuffix | server.js:59 | An alternative of the pattern can only match at the end of the name, so the name ends in that extension |
| PhotoNames.EndsWithCaseVariant | server.js:59 | A name ending in any upper- or lower-case spelling of an extension passes the suffix test for it |
| PhotoNames.ImageNameAcceptsAnyCase | server.js:59 | `photo_1.JPEG` and `holiday.Png` pass the filter |
| PhotoNames.ImageNameRejectsText | server.js:59 | `notes.txt` and `a.jpg.txt` do not pass the filter, because the extension must end the name |
| PhotoNames.PhotoNameIsImage | server.js:59 | Every generated name passes the filter, so every upload is listable |
| JsText.Split | server.js:61 | `split` with a one-character separator always yields at least one piece |
| JsText.JoinSplit | server.js:61 | Joining the pieces of `split` with the separator gives back the original string |
| JsText.SplitJoin | server.js:61 | `split` recovers pieces that were joined, as long as no piece contains the separator |
| JsText.SplitPiecesLackSeparator | server.js:61 | No piece of `split` contains the separator |
| JsText.SplitHasSecondPiece | server.js:61 | `split` yields a second piece, so `[1]` is defined, if and only if the separator occurs |
| JsText.SplitWithoutSeparator | server.js:61 | A string without the separator splits into itself alone |
| JsText.SplitAfterPiece | server.js:61 | Splitting `p`, separator, `t` with separator-free `p` gives `p` followed by the pieces of `t` |
| JsText.FirstPieceAfter | server.js:61 | The first piece of `q + rest` with separator-free `q` is `q` followed by the first piece of `rest` |
| JsText.TrimStartRemovesWhiteSpace | server.js:61 | `parseInt` skips exactly the leading white space and line terminators, up to the first other character |
| JsText.DigitRunIsLongest | server.js:61 | The digits `parseInt` reads are the longest prefix of digits of the radix |
| JsText.ParseIntReadsDecimal | server.js:61 | After white space and an optional sign, `parseInt` reads the decimal digits up to the first non-digit and ignores the rest; `-` negates |
| JsText.ParseIntReadsHex | server.js:61 | After white space and an optional sign, `0x` or `0X` switches to radix 16; a prefix without hex digits is NaN |
| JsText.ParseIntSignedPart | server.js:61 | After white space and an optional sign, `parseInt` is the signed value of the unsigned parse of the rest, and NaN when that is NaN |
| JsText.ParseIntWithoutDigits | server.js:61 | After white space and an optional sign, a string that is empty or does not start with a decimal digit parses to NaN |
| JsText.ParseIntOfNumeral | server.js:61 | A string of decimal digits, leading zeros included, parses to the number its digits denote |
| JsText.ParseIntOfDecimal | server.js:61 | `parseInt` of the rendering of a non-negative integer gives that integer back |
| PhotoNames.TimestampOf | server.js:61-62 | Reading the timestamp throws exactly when the name has no `_` |
| PhotoNames.TimestampOfPieces | server.js:61-62 | For a name `p_q` followed by `.`, `_` or nothing, the timestamp is `parseInt(q)`, and NaN when that has no digits |
| PhotoNames.TimestampOfNameWithoutDigits | server.js:61-62 | A name whose piece after the first `_`, past white space and an optional sign, is empty or starts with a non-digit, such as `photo_v2.jpg`, `photo_-x1.jpg`, `photo_.jpg` or `my_photo_7.jpg`, has no timestamp |
| PhotoNames.PhotoNameRoundTrip | server.js:61-62 | The timestamp read back from a generated name is the timestamp it was made from |
| PhotoListing.Images | server.js:59 | The filter keeps exactly the entries that pass the extension test, and no others |
| PhotoListing.ImagesOfConcat | server.js:59 | The filter of a concatenation is the concatenation of the filters, so it keeps the directory order |
| PhotoListing.ImagesOfOne | server.js:59 | A single entry is kept exactly when it passes the extension test |
| PhotoListing.ImagesKeepOccurrences | server.js:59 | The filter keeps every occurrence of an image entry and none of any other entry |
| PhotoListing.Insert | server.js:60-64 | Inserting into a newest-first sequence adds exactly that name and keeps the sequence newest first |
| PhotoListing.InsertBelowHead | server.js:60-64 | A head newer than the inserted name stays in front of it, and the order stays newest first |
| PhotoListing.SortNewestFirst | server.js:60-64 | The sort by `timeB - timeA` returns a permutation of its input in non-increasing timestamp order |
| PhotoListing.InsertKeepsTies | server.js:60-64 | An inserted name goes in front of every name with the same timestamp |
| PhotoListing.SortIsStable | server.js:60-64 | Names with equal timestamps keep their input order, since the comparator returns 0 and the sort is stable |
| PhotoListing.ListingOfTimedImages | server.js:58-64 | When every image has a timestamp and there are at least two, the listing is the sorted images |
| PhotoListing.ListPhotos | server.js:58-64 | The listing fails if and only if there are two or more images and one has no timestamp; it throws if and only if one of them has no `_`; a successful listing is a permutation of the image entries, ordered by non-increasing embedded timestamp |
| PhotoListing.SortedByTimestamp | server.js:60-64 | When every image has a timestamp, the sort by the comparator's keys orders the images by non-increasing embedded timestamp |
| PhotoListing.ThrowingNameHasNoTimestamp | server.js:61 | An image named without `_` is an image without a timestamp |
| PhotoListing.ListingIsStable | server.js:58-64 | Photos with the same timestamp keep their directory order in the listing |
| PhotoListing.UploadsAreListed | server.js:58-64 | A directory whose images were all named by the upload handler lists without error, and every uploaded photo in it is listed |
| PhotoListing.SortThree | server.js:60-64 | Three names with distinct timestamps sort newest first |
| PhotoListing.ImagesDropOne | server.js:59 | The filter drops a non-image entry and keeps the images in directory order |
| PhotoListing.ListingOfThree | server.js:58-64 | Three images with distinct timestamps beside a non-image entry list newest first, without the non-image |
| PhotoListing.ListingOfThreeUploads | server.js:58-64 | Uploads at `x`, `y`, `z` with `x < z < y`, beside a text file, list as the `y`, `z`, `x` photos |
| PhotoListing.ListingExample | server.js:58-64 | Uploads at 100, 300 and 200 ms beside `notes.txt` list as 300, 200, 100 |
| PhotoListing.LoneForeignImageIsListed | server.js:58-64 | A single image is listed even when its name has no `_`, because the comparator is never called |
| PhotoListing.ForeignImageBreaksListing | server.js:61 | An image named without `_` beside any upload makes the comparator throw |

## Left out

- The Express application, CORS, static files, JSON bodies and `listen` are not modelled. They are framework configuration.
- The multer destination callback and the creation of the upload directory are not modelled. They are disk I/O.
- `fs.readdir` is not modelled. The listing takes the directory entries as its argument, and a read error, with its 500 response, is not modelled.
- `Date.now()` is a parameter, so the model does not say where the timestamp comes from.
- Status codes, JSON payloads and `console` logging are not modelled.
- The `GET /photos/:filename` lookup and `path.join` are not modelled. They are existence checks and file streaming.
- The bulk delete and its `deletedCount` counter are not modelled. The counter is updated by callbacks that run after the response is computed, which is a concurrency question about Node's event loop.
- PhotoNames.PhotoName: the timestamp is a `nat`. Negative clock values before 1970 are not modelled. Neither are values from 10^21 upward, which JavaScript renders in exponent notation.
- JsText.ParseInt: the result is the exact integer. Rounding of digit runs longer than double precision holds (above 2^53) is not modelled, and neither is `Infinity`.
- PhotoListing.ListPhotos: any image without a timestamp among two or more is reported as `Err(NoTimestamp)`. The engine's actual order in that case is not modelled, including the cases where NaN keys still happen to give a consistent order. Which comparator call throws first, and how many calls happen before it, are not modelled either.
- PhotoListing.SortNewestFirst: the model is an insertion sort. It agrees with any stable sort, because a stable sort's result is determined by the keys. The engine's merge strategy and the order of its comparator calls are not modelled.
- The case folding of the `i` flag is modelled for ASCII letters only. Without the `u` flag, JavaScript also folds some non-ASCII letters among themselves, but none of them onto the ASCII letters of `jpg`, `jpeg` or `png`.
