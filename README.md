# Notes list adapter, modelled in Dafny

A model of `NotesAdapter`, the list adapter of the hashtag-notes Android app.
The adapter binds an ordered list of note wrappers to recycled row views.
Each wrapper holds a note and a selection flag. To render one row, the adapter:

- writes the note id as text into the id label;
- writes the note content into the content label, with a colour span on every
  hashtag (`#` followed by one or more of `[A-Za-z0-9_-]`);
- writes the formatted update date into the date label;
- paints the background in the selection colour when the note is selected,
  and transparent otherwise.

Files:

- `hashtag.dfy` (module `Hashtag`) covers the hashtag scan. The pure
  specification is `SpansFrom`/`HashtagSpans`. An independent reference
  definition of a greedy match is `IsTagSpan`. `FindNext` models one
  `Matcher.find()` call, and `HighlightSpans` models the `while (matcher.find())`
  loop. `FindNext` is proved to return the leftmost greedy match at or after
  its start, or none; `HighlightSpans` is proved to produce exactly
  `HashtagSpans`.
- `decimal.dfy` (module `Decimal`) covers the id label's text, that is
  `String.valueOf` of the id. The text has the canonical shape: an optional
  `-`, digits without a leading zero, never `-0`. It comes with a parser. A
  round trip proves that the text determines the id, and a uniqueness lemma
  proves that it is the only canonical text that reads back as the id.
- `widget.dfy` (module `Widget`) holds the adapter itself:
  - `NoteViewWrapper`: a class whose note is constant and whose `isSelected`
    flag can change;
  - `Row`: a class with the three labels, the background and the tag;
  - `ViewHolder`: a class that points back to its row;
  - `NotesAdapter`: the adapter class, with count, item lookup, positional id
    and `GetView`.

  `Render` is the pure description of what a row shows for one note and
  selection flag. `GetView` is proved to leave the row showing exactly
  `Render(...)` of the wrapper at `position`. That value does not depend on
  the row's earlier contents, so nothing stale is left on a recycled row.
  `GetView` also does not change any selection flag, so rendering the same
  position twice in a row leaves identical row state; `GetViewTwice` states
  this outright.

## Model

| member | source | states |
|---|---|---|
| `Hashtag.RunEnd` | app/src/main/java/com/rants/widget/NotesAdapter.java:114 | the `+` of the pattern is greedy: every character from the first tag character up to the returned end is in `[A-Za-z0-9_-]`, and the character at the end (if any) is not |
| `Hashtag.SpansFrom` | app/src/main/java/com/rants/widget/NotesAdapter.java:114-118 | the recursive scan: at a `#` followed by a tag character it reports the match up to the end of the run and resumes there, otherwise it moves on one character; it reports at most one span per two characters of the rest of the content |
| `Hashtag.HashtagSpans` | app/src/main/java/com/rants/widget/NotesAdapter.java:113-118 | the scan from the first character colours a span if and only if it is a greedy hashtag match of the content; the coloured spans are in increasing order and do not overlap |
| `Hashtag.SpansFromSound` | app/src/main/java/com/rants/widget/NotesAdapter.java:114-118 | every span the scan reports from a position starts at or after it, is a `#` followed by a maximal non-empty run of tag characters, and the spans are increasing and disjoint |
| `Hashtag.SpansFromComplete` | app/src/main/java/com/rants/widget/NotesAdapter.java:114-118 | every greedy hashtag match starting at or after a scan position is among the spans the scan reports |
| `Hashtag.HashtagSpanBounds` | app/src/main/java/com/rants/widget/NotesAdapter.java:114-117 | each coloured span `[a,b)` has `a + 2 <= b <= |s|` and `s[a] == '#'`; every character strictly inside it is a tag character; `b` is the end of the content or a non-tag character |
| `Hashtag.Examples` | app/src/main/java/com/rants/widget/NotesAdapter.java:113-118 | empty content, `"#"` and `"# "` give no span; `"#a"` gives exactly `[0,2)`; `"##a"` gives exactly `[1,3)` |
| `Hashtag.ExampleSentence` | app/src/main/java/com/rants/widget/NotesAdapter.java:113-118 | in `"hello #world and #a-b_1 end"` exactly `#world` and `#a-b_1` are coloured |
| `Hashtag.FindNext` | app/src/main/java/com/rants/widget/NotesAdapter.java:114-115 | one `find()`: when found, the match is a greedy hashtag and no match starts between the search position and it (leftmost); when not found, no match starts anywhere after the search position |
| `Hashtag.HighlightSpans` | app/src/main/java/com/rants/widget/NotesAdapter.java:113-118 | the find loop colours exactly `HashtagSpans(content)`, in the order found |
| `Decimal.NatToString` | app/src/main/java/com/rants/widget/NotesAdapter.java:110 | the decimal text of a natural number is non-empty, all digits, with no leading zero |
| `Decimal.IntToString` | app/src/main/java/com/rants/widget/NotesAdapter.java:110 | the id text is canonical (an optional `-`, then digits with no leading zero, never `-0`) and starts with `-` exactly for negative ids |
| `Decimal.ParseIntToString` | app/src/main/java/com/rants/widget/NotesAdapter.java:110 | the id text has the shape of an integer and reads back as the id |
| `Decimal.CanonicalTextUnique` | app/src/main/java/com/rants/widget/NotesAdapter.java:110 | a canonical text that reads back as an id is exactly that id's text, so the id text is determined uniquely |
| `Decimal.IntToStringInjective` | app/src/main/java/com/rants/widget/NotesAdapter.java:110 | distinct ids give distinct id texts |
| `Widget.Render` | app/src/main/java/com/rants/widget/NotesAdapter.java:109-127 | a row shows the content unchanged; its spans are exactly the ordered greedy hashtag matches of the content; its id text is canonical decimal text that reads back as the note id (so, by `CanonicalTextUnique`, exactly `String.valueOf` of the id); its date text is the formatter's output for `updatedAt`; its background is the selection colour if and only if the note is selected |
| `Widget.RenderSelectionOnlyBackground` | app/src/main/java/com/rants/widget/NotesAdapter.java:124-127 | toggling the selection flag switches the background between the selection colour and transparent, and changes nothing else in the row |
| `Widget.RenderDeterminesNote` | app/src/main/java/com/rants/widget/NotesAdapter.java:110-127 | two renders that look the same came from notes with the same id, content, date text and selection flag |
| `Widget.NoteViewWrapper.constructor` | app/src/main/java/com/rants/widget/NotesAdapter.java:30-42 | a wrapper holds the given note, and its selection flag starts false (the Java default) |
| `Widget.NoteViewWrapper.SetSelected` | app/src/main/java/com/rants/widget/NotesAdapter.java:48-50 | sets the selection flag and changes nothing else; the note is a constant and is never reassigned |
| `Widget.Row.Inflate` | app/src/main/java/com/rants/widget/NotesAdapter.java:104 | a freshly inflated row has no tag |
| `Widget.ViewHolder.constructor` | app/src/main/java/com/rants/widget/NotesAdapter.java:145-150 | the holder refers to the row whose labels it caches |
| `Widget.NotesAdapter.constructor` | app/src/main/java/com/rants/widget/NotesAdapter.java:62-64 | the adapter uses the given list as its data |
| `Widget.NotesAdapter.GetCount` | app/src/main/java/com/rants/widget/NotesAdapter.java:67-70 | the count is the length of the data list |
| `Widget.NotesAdapter.GetItem` | app/src/main/java/com/rants/widget/NotesAdapter.java:76-79 | for an in-range position, returns the wrapper stored at that position |
| `Widget.NotesAdapter.GetItemId` | app/src/main/java/com/rants/widget/NotesAdapter.java:85-88 | the item id is the position itself |
| `Widget.NotesAdapter.GetView` | app/src/main/java/com/rants/widget/NotesAdapter.java:101-128 | returns the recycled row with its holder unchanged when one is given, or else a fresh row tagged with a fresh holder. Afterwards the row shows exactly `Render` of the wrapper's note and flag, whatever it showed before. No selection flag changes, so a second call in a row gives identical row state |
| `Widget.NotesAdapter.GetViewTwice` | app/src/main/java/com/rants/widget/NotesAdapter.java:101-128 | rendering a position, then rendering it again on the returned row, keeps the same row and holder and leaves it displaying exactly what the first render showed, which is `Render` of the wrapper |

## Left out

- Android view machinery is not modelled: `LayoutInflater.inflate`, `findViewById`, `setTag`/`getTag`, `TextView.setText` and `getResources().getColor`. A row is a plain class whose fields are its labels' texts and its background. The view holder's three label references are the row's own fields, reached through `holder.parent`. The two colours are the constants `SelectedNote` and `Transparent`.
- `java.util.regex` is not modelled. The one fixed pattern is written out as a scanner.
- Date formatting is not modelled. `DateFormat.getDateTimeInstance(MEDIUM, MEDIUM)` depends on the locale and comes from a library, so the adapter takes it as a function parameter `formatDate`. This is enough to show that the date text depends only on `updatedAt`.
- `Note.java` is not part of this model. A note is a value with an integer id, a content string and an update timestamp. Null content and null dates are not represented; the source does not guard against them.
- Truncation to 80 characters is not modelled. The comment at line 111 describes it, but the code does not do it.
- `NoteViewWrapper.getNote` has no member of its own. The note is the wrapper's constant field `note`, which the adapter reads directly, as the Java code does at line 110.
- The data list is not shared with the host. In the source it is a host-owned `List` that the host may change between renders. In the model it is a sequence fixed when the adapter is built.
- Widget.NotesAdapter.GetView: requires an in-range position. In the source, `data.get(position)` at line 109 throws `IndexOutOfBoundsException` for any other position; the model does not represent that exception.
- Widget.NotesAdapter.GetView: requires a recycled row to carry a holder that points back to it. In the source, an untagged row gives a null holder (the cast of null succeeds) and the call fails with a `NullPointerException` at line 110. A row tagged with another row's holder does not fail at all: the source silently writes into that other row's labels. The model represents neither case.
- Widget.NotesAdapter.GetItem: requires an in-range position. In the source, `List.get` throws `IndexOutOfBoundsException` for any other position.
- Java `int`/`long` widths are not modelled. Positions and ids are unbounded integers.
- UTF-16 offsets are not modelled. Content is a sequence of Unicode characters, while `Matcher.start()`/`end()` and `setSpan` count UTF-16 code units. The same characters are coloured, but the numbers differ once the content holds a character outside the Basic Multilingual Plane: for `"😀#a"` Java colours `[2,4)` and the model reports `Span(1, 3)`.
