# MetaFilter navigator, modelled in Dafny

A model of the content script `content/index.js` of the MetaFilter navigator browser
extension. On a MetaFilter thread, the script does four things:

- It reads each comment's byline to find the author id and the permalink.
- It builds a dictionary from each author who wrote two or more comments to that author's
  permalinks, in page order.
- It appends navigation controls to each of those comments:
  - a previous arrow and a next arrow;
  - a trigger that opens a picker listing all of that author's comments.
- It highlights those comments when their author is the signed-in viewer.

The project has six modules:

- `Wrappers`: `Option`.
- `Text`: the string primitives the script relies on:
  - `String.prototype.split` on one character, with its join inverse;
  - `${n}` for a non-negative integer;
  - `parseInt(_, 10)`.
- `Site`:
  - `getSite` and `hasSite`, with the host name as a parameter;
  - the pattern `USER_ID=(\d+);` that `getUserId` matches against the cookie, which is also a
    parameter.
- `Comments`: `wrangleComments` and `reduceUserComments`.
  - Both are methods whose loops fill and then prune a `map<string, seq<string>>`.
  - They are proved against a specification of the index: `AuthorIndex`, `Permalinks`, `Count`.
  - A page is the sequence of its comments. Each comment is the list of hrefs of its byline
    links.
- `Navigation`:
  - `buildTemplate` as a record of the two arrow targets and the trigger, plus the token
    sequence of its markup;
  - `updateMultiComments` as a loop over the index keys, with an inner loop over each author's
    comments that carries the running position. The loops return, for every comment, the
    controls it receives and whether it is highlighted.
- `Picker`:
  - `buildPicker`;
  - how a trigger is read back (`data-userid`, then `parseInt(data-commentid, 10)`);
  - the `#picker` element as a class whose fields `showPicker` and `gotoLink` update.

## Model

| member | source | states |
|---|---|---|
| Site.GetSite | content/index.js:28-30 | the site is the part of the host before its first `.`, or the whole host when it has no `.` |
| Site.HasSite | content/index.js:32-37 | true exactly when the site is one of www, ask, metatalk, fanfare, projects, music, podcast |
| Site.FirstLabelIs | content/index.js:29 | a dot-free name is the first label exactly when the host is that name or starts with the name followed by `.` |
| Site.HasSiteOfHost | content/index.js:28-37 | the script is enabled exactly when the host is one of the seven names or starts with one of them followed by `.` |
| Site.MatchLengthUnique | content/index.js:41 | at a given position the pattern can match with only one group length: the greedy `\d+` run, which must end at `;` |
| Site.MatchAt | content/index.js:41 | a result is a match at that position and its group; no result means no group length matches there |
| Site.FindMatch | content/index.js:41 | the result is the leftmost position at or after `from` where the pattern matches; no result means no match from there on |
| Site.GetUserId | content/index.js:39-42 | the id is the non-empty digit group of the leftmost match in the cookie; there is no id exactly when the pattern matches nowhere (the source then throws) |
| Text.Split | content/index.js:29 | `split(sep)` gives at least one piece; it gives exactly one when `sep` does not occur; no piece contains `sep` |
| Text.FirstPartOfSplit | content/index.js:29 | element 0 of `split(sep)` is a prefix free of `sep`, followed by `sep` or by the end of the string |
| Text.LastPartOfSplit | content/index.js:61 | the last element of `split(sep)` (what `pop()` returns) is a suffix free of `sep`, preceded by `sep` or by the start of the string |
| Text.JoinSplit | content/index.js:29 | joining the pieces of `split(sep)` with `sep` gives back the string |
| Text.FirstPartUnique | content/index.js:29 | the first-piece property above has exactly one solution |
| Text.LastPartUnique | content/index.js:61 | the last-piece property above has exactly one solution |
| Text.NatToString | content/index.js:122 | `${index}` is a non-empty run of decimal digits with no leading zero |
| Text.DigitsValueOfNatToString | content/index.js:122 | the digits of `${n}` denote `n` |
| Text.ParseInt | content/index.js:152 | `parseInt(s, 10)` is `NaN` exactly when no digit follows the leading white space and optional sign; otherwise it is the value of the longest digit run there, negated after a `-` |
| Text.ParseIntSkipsSpace | content/index.js:152 | leading white space does not change what `parseInt` reads |
| Text.ParseIntOfNatToString | content/index.js:152 | `parseInt(`${n}`, 10)` is `n` for every non-negative `n` |
| Comments.AuthorOf | content/index.js:60-61 | a comment has an author id exactly when its byline has links |
| Comments.AuthorIsLastSegment | content/index.js:61 | the author id is the text after the last `/` of the first byline href |
| Comments.Tags | content/index.js:65 | each comment's `data-userid` tag is its author id; a comment without byline links is left untagged |
| Comments.PermalinksCount | content/index.js:63-64 | an author's list has one permalink per comment tagged with that author |
| Comments.PermalinkOfPost | content/index.js:63-64 | an author's `k`-th permalink, where `k` counts that author's earlier comments, is this comment's second byline href (the list is in page order) |
| Comments.AuthorsHavePermalinks | content/index.js:63 | an id gets a dictionary entry exactly when some comment carries it |
| Comments.IndexHoldsRepeatAuthors | content/index.js:56-82 | an author is in the final index exactly when they wrote at least two comments, and the entry holds one permalink per comment |
| Comments.WrangleComments | content/index.js:56-69 | the tags are every comment's author id; the result has as keys exactly the authors with at least two comments; each value is the author's permalinks in page order; the result equals `AuthorIndex` |
| Comments.PermalinksStep | content/index.js:63-64 | one more comment extends only its own author's list, by its permalink |
| Comments.TagsStep | content/index.js:65 | one more comment appends its author id (or no tag) to the tags so far |
| Comments.CollectStep | content/index.js:58-67 | the loop body keeps the dictionary equal to the permalinks of the comments read so far |
| Comments.ReducedIsIndex | content/index.js:68 | deleting the single-comment authors from the full dictionary gives `AuthorIndex` |
| Comments.ReduceUserComments | content/index.js:77-82 | exactly the entries of length 1 are deleted; every other entry is kept unchanged |
| Navigation.BuildTemplate | content/index.js:116-127 | the previous arrow is live exactly when `list[index - 1]` exists and is non-empty, and then it points there; likewise the next arrow with `list[index + 1]`; the trigger carries the user id and a comment id that `parseInt` reads back as `index` |
| Navigation.TemplateBoundaries | content/index.js:117-124 | inside a list of non-empty permalinks, the previous arrow is inert only at position 0 and the next arrow only at the last position |
| Navigation.PreviousArrow | content/index.js:121 | the live previous arrow closes one more span than it opens; the inert arrow closes none |
| Navigation.PreviousMarkup | content/index.js:119-121 | the `navprevious` span is closed at the end of the previous arrow exactly when the arrow is live |
| Navigation.TriggerMarkup | content/index.js:122 | the trigger span closes itself |
| Navigation.NextArrow | content/index.js:124 | the next arrow, live or inert, opens and closes no span |
| Navigation.NextMarkup | content/index.js:123-126 | the `navnext` span is closed whether or not the next arrow is live |
| Navigation.Markup | content/index.js:119-126 | the spans of the whole template balance when the previous arrow is live; with an inert previous arrow one span, `navprevious`, stays open |
| Navigation.FirstPostLeavesSpanOpen | content/index.js:121 | the controls of every author's first comment leave one span open |
| Navigation.ClosedMarkupBalances | content/index.js:119-126 | with `</span>` after the inert arrow too, the spans always balance, and the markup is unchanged when the previous arrow is live |
| Comments.CountBefore | content/index.js:94 | a comment tagged with `u` has fewer of `u`'s comments before it than `u` wrote in all |
| Navigation.Placed | content/index.js:94-97 | a comment gets controls exactly when it is tagged with an indexed author; its position, the number of that author's earlier comments, is below the author's comment count, and the trigger carries the author and a comment id that `parseInt` reads back as that position |
| Navigation.UpdateMultiComments | content/index.js:92-100 | every comment tagged with an indexed author gets the template for that author's list at the number of the author's earlier comments; every other comment gets nothing; a comment is highlighted exactly when its author is the viewer and is indexed |
| Navigation.UpdateAuthorComments | content/index.js:94-98 | the comments tagged with one author get the templates for positions 0, 1, 2, … in page order, and are highlighted when the author is the viewer; no other comment changes |
| Navigation.PlacementOfPost | content/index.js:56-100 | a comment gets controls exactly when its author wrote two or more comments; its position fits the author's list, that entry is the comment's own permalink, and its controls are the template for that position |
| Comments.AuthorOfUserLink | content/index.js:61 | a first byline href `/user/<id>`, with `id` free of `/`, has author `id` |
| Comments.ScenarioTags | content/index.js:65 | the example page with authors A, B, A, A, C is tagged A, B, A, A, C |
| Comments.PermalinksOfFive | content/index.js:63-64 | on any page of five comments by A, B, A, A and C, A's list is the permalinks of comments 0, 2 and 3, and every other author has at most one |
| Comments.ScenarioPermalinks | content/index.js:63-64 | on the example page A's list is the permalinks of comments 0, 2 and 3; no other author has more than one |
| Comments.ScenarioIndex | content/index.js:56-82 | the example page is indexed as A alone, with A's three permalinks |
| Navigation.ScenarioControls | content/index.js:92-127 | on the example page, A's first comment has an inert previous arrow and A's last an inert next arrow, while A's middle comment has both arrows live; the comments by B and C get no controls |
| Picker.BuildPicker | content/index.js:137-147 | one item per permalink, labelled with its 0-based position; the item at `commentId` is inert and every other item links to the permalink at its position |
| Picker.InertCount | content/index.js:140-143 | items where only the one at `c` is inert hold one inert item if `c` is a position and none otherwise |
| Picker.PickerItems | content/index.js:140-143 | the picker has exactly one inert item when `commentId` is a position of the list, and none otherwise (for example for `NaN`) |
| Picker.ReadTrigger | content/index.js:151-153 | a click finds a list exactly when `data-userid` is indexed, and the list is that author's entry; the position is what `parseInt(data-commentid, 10)` reads, or -1 (standing for `NaN`) when it reads no number; so it is non-negative exactly when `data-commentid` parses to a non-negative number |
| Picker.TriggerRoundTrip | content/index.js:150-154 | a trigger rendered for author `u` at position `k` reads back as `u`'s list and `k`, so its picker has one inert item: the comment the trigger sits on |
| Picker.Popover.State | content/index.js:164 | the picker is open exactly when its display is `inline` |
| Picker.Popover.constructor | content/index.js:44-47 | the picker starts empty and closed |
| Picker.Popover.ShowPicker | content/index.js:158-165 | the content is replaced by the items of `buildPicker` and the picker is shown, whatever was open before |
| Picker.Popover.Activate | content/index.js:154-161 | a click on a trigger opens the picker for the author's list and the trigger's position; an unindexed author changes nothing |
| Picker.Popover.GotoLink | content/index.js:171-173 | the navigation target is the clicked item's `data-href`, absent for the inert item; the picker is hidden and its content is kept |

## Left out

- Reading the page (`qs`/`qsa`, lines 3-9) is not modelled. Each comment is its list of byline
  hrefs, taken as input in page order.
- Link resolution (`.href` returns absolute URLs) is not modelled. The hrefs are taken as the
  strings the script sees.
- `insertAdjacentHTML`, `classList.add`, `setAttribute` and the `innerHTML` write are not
  modelled as DOM changes:
  - the tags are returned by `WrangleComments`;
  - the controls and highlights are returned by `UpdateMultiComments`;
  - the picker content is the `items` field.
- `init` (lines 17-26) is only described here, not modelled. Its order matters: `getUserId`
  runs before `hasSite`, so a missing `USER_ID` cookie stops the script on every site.
- `document.location.host` and `document.cookie` are parameters. `GetUserId` returns `None`
  where the source throws on reading `[1]` of `null`.
- The pattern is matched by its meaning, not by a regular-expression engine. It has no
  flags, so the leftmost match is the one returned.
- `Object.keys` order is not modelled. Both key loops take an arbitrary key, so every
  contract holds for every order.
- `WrangleComments`: requires that a byline with links has at least two. With exactly one
  link, the source throws on `links[1].href`.
- Author ids that are `Object.prototype` property names (`constructor`, `__proto__`) are not
  modelled. On such ids the source's plain-object dictionary misbehaves. MetaFilter user ids
  are numeric.
- The selector on line 94 has no closing `]`. The model takes it that the browser closes the
  attribute selector at the end of input, as CSS parsing does, so the selector matches the
  comments tagged with the author.
- `parseInt` is modelled exactly for the strings the script writes (`${n}` for `n >= 0`).
  - Leading white space, the sign and the digit run follow `parseInt(_, 10)`.
  - Precision loss beyond 2^53 is not modelled.
  - `${n}` switching to exponent notation from 1e21 is not modelled.
  - `NaN` is represented as `None`, which `ReadTrigger` maps to -1. Neither `NaN` nor -1
    equals a position.
- These parts of `showPicker` and `gotoLink` are not modelled:
  - the picker's `left`, `top` and `position` styles (event coordinates);
  - the per-item click listeners;
  - `window.location` navigation: `GotoLink` returns the target instead;
  - `removeEventListener('click')` with one argument (line 175): it throws a `TypeError`, since
    the listener argument is required, and so ends that `forEach` at the first item. The
    display is already set to `none` on line 173, so the modelled state is the same either way.
- The text of the markup is not modelled. The template is a sequence of tokens (`Markup`)
  whose contracts speak of span nesting, and the picker content is its `Item` values
  (`BuildPicker`). The characters of the class names, arrows and `<li>` tags are not written
  out as strings, and neither is html escaping, which the template literals do not do.
- The picker's item labels are 0-based, as lines 141-142 write `${index}`; the first item
  reads 0.
- Closing the picker by clicking outside it is not modelled, because the script has no such
  handler.

## Findings

| source | as written | input that shows it | evidently intended | confidence | as-written member | corrected member |
|---|---|---|---|---|---|---|
| content/index.js:121 | `</span>` is written only inside the live branch of the previous arrow, so an inert arrow leaves `<span class="navprevious">` open and the trigger and next spans nest inside it | the first comment of any indexed author (position 0, no previous permalink) | close the `navprevious` span in both branches, as the `navnext` span is closed | medium, not executed | Navigation.FirstPostLeavesSpanOpen | Navigation.ClosedMarkupBalances |
