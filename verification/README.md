# Homestay page script and gallery manifest generator, in Dafny

This project models the two pieces of logic behind the homestay web page:

- `script.js`, the page script: the EN/MY language toggle (`setLanguage` over the `.lang-btn`
  buttons and `.lang-section` sections) and the dynamic photo gallery (the request for
  `gallery.json`, the pass that turns the manifest into slides and indicator dots, and the
  slideshow controller with `showSlide`, `nextSlide`, `prevSlideFn`, `restartInterval`, the
  next/previous buttons, the dot clicks and the 5000 ms auto-rotation);
- `build_gallery.py`, which lists the `images` folder, keeps the files with an image extension,
  sorts them and numbers them into the `{url, caption}` records of `gallery.json`.

Modules, one per concern:

| file | module | models |
|---|---|---|
| wrappers.dfy | `Wrappers` | `Option` (absent key, `undefined`, `NaN`) |
| decimal.dfy | `Decimal` | `String(n)` / f-string decimal text and `parseInt(s, 10)` |
| manifest.dfy | `Manifest` | a manifest entry and JavaScript truthiness of its fields |
| language_toggle.dfy | `LanguageToggle` | `setupLanguageToggle`, `setLanguage`, button clicks |
| slideshow.dfy | `Slideshow` | index arithmetic and the `Gallery` controller class |
| gallery_loader.dfy | `GalleryLoader` | the fetch outcome, the render pass, starting the slideshow |
| string_order.dfy | `StringOrder` | Python string order and `list.sort()` |
| gallery_builder.dfy | `GalleryBuilder` | `main()` of build_gallery.py and how its output feeds the gallery |

The page elements are records: a language button is its `data-lang` attribute and class set, a
section its class set and inline display, and the slideshow keeps the `active` flag of each slide
and dot in two arrays updated in place. The request for the manifest is an input value
(`Response`), and the timer is reduced to its bookkeeping: the handle in `autoInterval`, the set of
intervals registered and not cleared, and the next handle to hand out.

The model follows the code in three places where a reader might expect otherwise:

- the alt text `Gallery photo N` and the dot's `data-index` use the entry's position in the whole
  manifest, not among the kept entries (script.js:86-103);
- a dot click checks only for `NaN`, not the range (script.js:162-165), so behind a skipped entry a
  dot selects its manifest position: a later slide than its own, or, when that position is at
  least the number of slides, no slide at all, since `showSlide` then leaves no slide and no dot
  active (script.js:119-127). `GalleryLoader.SkippedEntryShiftsDot` and
  `GalleryLoader.SkippedEntryKeepsManifestPosition` show both cases on three-entry manifests;
- for a non-`ok` response the "not found" text is written and then replaced by the `catch`
  handler's generic message (script.js:64-67, 174-176), so it is the generic message that stays.

## Model

| member | source | states |
|---|---|---|
| `Decimal.NatToString` | script.js:103 | the decimal text of a number is a non-empty run of digits with no leading zero |
| `Decimal.DigitsValueOfNatToString` | script.js:103 | reading the decimal text of `n` digit by digit gives back `n` |
| `Decimal.ParseInt` | script.js:162 | `parseInt(s, 10)` yields a number exactly when digits follow the leading white space and sign |
| `Decimal.DigitPrefix` | script.js:162 | `parseInt` reads the longest run of digits and stops at the first non-digit |
| `Decimal.TrimStart` | script.js:162 | what `parseInt` reads after skipping leading white space is a suffix of the input not starting with white space |
| `Decimal.ParseIntOfDigits` | script.js:162-163 | a digit string never parses to `NaN` and parses to its own non-negative value |
| `Decimal.ParseIntOfNatToString` | script.js:162 | round trip: `parseInt(String(idx), 10) === idx` for every manifest position |
| `Decimal.NatToStringInjective` | script.js:103 | distinct positions give distinct `data-index` texts |
| `Manifest.OrElse` | script.js:90-94 | JavaScript's `or` of a caption and a fallback is the caption when it is a non-empty string, the fallback otherwise |
| `LanguageToggle.ToggleButton` | script.js:16-18 | a button is active iff its `data-lang` equals the chosen code; its other classes and attribute are unchanged |
| `LanguageToggle.ShowSection` | script.js:20-26 | a section is shown `block` iff it has the class `lang-<code>`, otherwise `none`; its classes are unchanged |
| `LanguageToggle.SetLanguage` | script.js:15-27 | every button and every section is updated as above, in place |
| `LanguageToggle.Setup` | script.js:9-36 | no change when the page has no buttons or no sections; otherwise English is applied |
| `LanguageToggle.ClickButton` | script.js:13-33 | on a page with sections (the only pages with click handlers), a click applies the clicked button's own code, and that button ends active |
| `Slideshow.NextIndex` | script.js:129-132 | the next index is in range and congruent to `c + 1` modulo the slide count |
| `Slideshow.PrevIndex` | script.js:134-137 | the previous index is in range and congruent to `c - 1` modulo the slide count |
| `Slideshow.NextIndexSteps` | script.js:129-132 | from an in-range index, next moves up by one and wraps from the last slide to the first |
| `Slideshow.PrevIndexSteps` | script.js:134-137 | previous moves down by one and wraps from the first slide to the last |
| `Slideshow.NextPrevInverse` | script.js:129-137 | next then previous, and previous then next, return to the same in-range index |
| `Slideshow.NextTimes` | script.js:129-132 | any number of next steps from an in-range index stays in range |
| `Slideshow.PrevTimes` | script.js:134-137 | any number of previous steps from an in-range index stays in range |
| `Slideshow.NextTimesIsAddition` | script.js:129-132 | `k` next steps from `c` land on `(c + k) mod N` |
| `Slideshow.PrevTimesIsSubtraction` | script.js:134-137 | `k` previous steps from `c` land on `(c - k) mod N` |
| `Slideshow.NextCycle` | script.js:129-132 | `N` next steps return to the starting index |
| `Slideshow.PrevCycle` | script.js:134-137 | `N` previous steps return to the starting index |
| `Slideshow.Marks` | script.js:119-125 | after `showSlide(k)` element `i` of a list is active iff `i == k` |
| `Slideshow.MarksCount` | script.js:119-127 | after `showSlide(k)` exactly one element is active when `k < N` and none when `k >= N` |
| `Slideshow.Gallery.constructor` | script.js:115-117 | the controller starts from the rendered classes with `currentIndex = 0` and no interval |
| `Slideshow.Gallery.ShowSlide` | script.js:119-127 | slide `i` and dot `i` are active iff `i == index`, `currentIndex == index`; the one active slide and dot are aligned when `index < N` |
| `Slideshow.Gallery.Next` | script.js:129-132 | `currentIndex` moves to `NextIndex`, one slide and the dot beside it active; the interval is untouched, which is what every auto-tick does (script.js:141, 172) |
| `Slideshow.Gallery.Prev` | script.js:134-137 | `currentIndex` moves to `PrevIndex`, slides and dots aligned |
| `Slideshow.Gallery.RestartInterval` | script.js:139-142 | the old interval is cleared and one fresh interval is live, so at most one ever is |
| `Slideshow.Gallery.StartRotation` | script.js:172 | the first interval is registered; exactly one is live |
| `Slideshow.Gallery.NextClick` | script.js:145-150 | the next button advances and leaves exactly one fresh interval |
| `Slideshow.Gallery.PrevClick` | script.js:152-157 | the previous button steps back and leaves exactly one fresh interval |
| `Slideshow.Gallery.DotClick` | script.js:160-168 | a dot click shows the slide its parsed `data-index` names, without range check, and restarts the interval; on `NaN` nothing changes |
| `Slideshow.Gallery.DataIndexNeverNaN` | script.js:162-163 | the `NaN` guard never fires on a rendered dot |
| `GalleryLoader.AcceptedPositions` | script.js:80-82 | the kept positions are in range and each has a truthy `url` |
| `GalleryLoader.AcceptedStep` | script.js:80-82 | one more entry adds its own position exactly when its `url` is truthy |
| `GalleryLoader.AcceptedPositionsComplete` | script.js:80-82 | every entry with a truthy `url` is kept |
| `GalleryLoader.AcceptedPositionsIncreasing` | script.js:80-105 | kept entries stay in manifest order, once each |
| `GalleryLoader.AllAccepted` | script.js:80-82 | when all urls are truthy, entry `k` becomes slide `k` |
| `GalleryLoader.SlideFor` | script.js:84-98 | a slide shows the entry's url; alt text is the caption or `Gallery photo <position+1>`, caption text is the caption or empty; initially active iff at manifest position 0 |
| `GalleryLoader.DotFor` | script.js:100-104 | a dot's `data-index` parses back to its manifest position; initially active iff at position 0 |
| `GalleryLoader.RenderManifest` | script.js:80-108 | one slide and one dot per kept entry, in manifest order, so slide count = dot count = number of truthy urls |
| `GalleryLoader.LoadOutcome` | script.js:62-177 | the gallery runs iff the response is `ok`, an array, and has a kept entry; network, status and parse failures end in the generic message; a non-array or empty array gives "no images defined"; a non-empty array without a truthy `url` gives "no valid images" |
| `GalleryLoader.ErrorsShown` | script.js:63-176 | the messages written in order, the last one being what stays: a non-`ok` status writes "not found" and then the generic message, every other case at most one message |
| `GalleryLoader.LoadGallery` | script.js:62-177 | the outcome is `LoadOutcome` and the texts written are `ErrorsShown`; on success a fresh slideshow with slide and dot 0 active, `currentIndex == 0`, one live interval, and dot data-indexes equal to the kept manifest positions |
| `GalleryLoader.SkippedEntryKeepsManifestPosition` | script.js:86-165 | behind a skipped entry, numbering and `data-index` keep the manifest position, and a dot whose position is past the last slide leaves nothing active |
| `GalleryLoader.SkippedEntryShiftsDot` | script.js:100-165 | with a skipped first entry, the dot of the first kept entry activates the second slide |
| `StringOrder.LessEqReflexive` | build_gallery.py:31 | Python string order is reflexive |
| `StringOrder.LessEqTotal` | build_gallery.py:31 | any two names are comparable |
| `StringOrder.LessEqAntisymmetric` | build_gallery.py:31 | names that are each at most the other are equal |
| `StringOrder.LessEqTransitive` | build_gallery.py:31 | the order is transitive |
| `StringOrder.Insert` | build_gallery.py:31 | inserting into an ascending list keeps it ascending and adds exactly that name |
| `StringOrder.Sort` | build_gallery.py:31 | `files.sort()` gives an ascending permutation of the list |
| `StringOrder.SortedUnique` | build_gallery.py:31 | an ascending permutation is unique |
| `StringOrder.SortIgnoresOrder` | build_gallery.py:31 | the sorted list does not depend on the order of the input |
| `GalleryBuilder.LastDot` | build_gallery.py:22 | the position found is a dot with no dot after it; none means the name has no dot |
| `GalleryBuilder.Extension` | build_gallery.py:22 | `os.path.splitext` extension: empty, or a dotted suffix without another dot and with a non-dot character before it; empty when only dots precede the last dot |
| `GalleryBuilder.Lower` | build_gallery.py:22 | `.lower()` maps each character, same length |
| `GalleryBuilder.FilterExamples` | build_gallery.py:9-24 | `.png` is not kept, `a.tar.PNG` and `..b.gif` are, `notes.txt` is not |
| `GalleryBuilder.KeptElements` | build_gallery.py:21-24 | a name is kept iff its lower-cased extension is allowed, as many times as it is listed |
| `GalleryBuilder.CollectImages` | build_gallery.py:20-24 | the collecting loop appends exactly the kept names, in listing order |
| `GalleryBuilder.Numbered` | build_gallery.py:34-37 | one record per file, record `k` naming file `k` and caption `Photo k+1` |
| `GalleryBuilder.NumberEntries` | build_gallery.py:33-37 | the enumerate loop writes `images/<k-th file>` and `Photo k` for `k` from 1 |
| `GalleryBuilder.ManifestFor` | build_gallery.py:19-37 | one record per kept name, record `k` naming the `k`-th sorted name |
| `GalleryBuilder.BuildGallery` | build_gallery.py:11-37 | nothing is produced without the images folder; otherwise the filter, sort and numbering above (an empty list when nothing is kept) |
| `GalleryBuilder.ManifestSorted` | build_gallery.py:31-37 | records come in ascending file-name order |
| `GalleryBuilder.ManifestIgnoresListingOrder` | build_gallery.py:21-31 | listings with the same names in any order give the same manifest |
| `GalleryBuilder.ManifestFiles` | build_gallery.py:21-31 | the manifest names each listed image file as often as listed, and nothing else |
| `GalleryBuilder.GeneratedManifestFullyShown` | build_gallery.py:34-37 | a generated manifest loses no entry in the page: every record is kept at its own position, its alt text is its caption, and the gallery runs with one slide per record (or reports "no images defined" when empty) |

## Left out

- DOM querying, `createElement`/`appendChild`, the `innerHTML` markup and CSS: containers are records and flag arrays.
- `fetch`, promise chaining, `res.json()` and the `Date.now()` cache buster: the settled response is an input (`GalleryLoader.Response`).
- Timer timing (the 5000 ms delay, when ticks fire): only which intervals are registered and cleared is kept; an auto-tick is a call of `Gallery.Next`.
- Event-listener registration: clicks are method calls; a page without a next or previous button simply never calls `NextClick` or `PrevClick`.
- `console.*` logging and the `print` messages of build_gallery.py.
- The slide and dot containers are taken to hold no `.slide` or `.dot` element before the render pass, so the slide count is the number of kept entries (script.js:107-108 counts whatever the containers hold).
- The early return when the slide or dot container is missing (script.js:48-51): nothing is requested or rendered then; the model starts from a page that has both.
- A `null` element in the manifest array makes `item.url` throw part-way through the render pass, which the `catch` handler reports; `Manifest.Entry` has no null case.
- Non-string `url` or `caption` values (numbers, objects) are not represented; both fields are optional strings.
- `Decimal.ParseInt`: returns exact integers, not IEEE doubles, so precision loss above 2^53 is not modelled; data-index values are manifest positions, far below that.
- `GalleryBuilder.Lower`: lower-cases ASCII letters only; the non-ASCII letters whose Python lower case is ASCII (the Kelvin sign gives `k`, the dotted capital I gives two characters) cannot produce an allowed extension, so the filter is unaffected.
- `GalleryBuilder.Extension`: does not look for a `/` separator, because names from `os.listdir` never contain one.
- File-system access (`os.listdir`, `isdir`, path joining), `json.dump` formatting and the file write: the listing is an input (`None` when the folder is missing) and the records are the result.
- An element that is both a language button and a language section is not modelled; the two lists are separate arrays.
