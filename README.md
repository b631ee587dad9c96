# Modular character assembler and wiki helpers, in Dafny

This project models two JavaScript files of a small game-asset repository.
It also proves properties of the model.

**modeler.js** builds one animated character out of a base skinned model and
up to six part models (shirt, pants, shoes, helmet, mask, backpack). Each part
is rebound to the base skeleton by bone name. The model covers:

- the skeleton helpers `findFirstSkeleton` and `buildBoneMap`;
- `rebindToBaseSkeleton`;
- the module state `slots`, `baseModel`, `baseSkeleton`, `baseBoneMap`;
- the operations that change that state: `clearSlot`, `setSlotFromUrl` and `loadBase`.

**wiki-shared.js** holds the helpers that every wiki page uses: `slugId`,
`escapeHtml`, `moneyCell`, `safeText`, `imgUrl`, `normItem` and
`matchesQuery`. It also holds three pure pieces of rendering code, each
modelled as a function:

- the tag and search filter of `wirePage`'s `render`;
- the sorted tag list of `buildPills`;
- the key/value list of a grid card in `renderGrid`.

## Layout

- `options.dfy` (`Options`): the `Option` type.
- `seqs.dfy` (`Seqs`): `Filter`, subsequences, `Dedup`. These are the
  JavaScript `filter` and the `[...new Set(xs)]` idiom.
- `text.dfy` (`Text`): `trim` (ECMAScript white space, through the indices
  where the text starts and ends), ASCII `toLowerCase`,
  `join`, `includes`, and code-point string order (JavaScript compares
  UTF-16 code units; see "## Left out").
- `jsvalues.dfy` (`JsValues`): JavaScript values. Covers truthiness, `||`,
  `??`, `String(v)` and property access.
- `scene.dfy` (`Scene`): the scene graph as a tree value, bones, skeletons,
  `findFirstSkeleton`, `buildBoneMap` and `rebindToBaseSkeleton`.
- `modeler.dfy` (`Modeler`): the mutable parts of modeler.js.
  - Classes `Group` (a `THREE.Group` with a children list changed in place)
    and `Character` (the module state and its three operations).
  - Loading a file is an input: the caller passes the cloned fragment or the
    load error.
- `wikitext.dfy` (`WikiText`): `slugId`, `escapeHtml`, `moneyCell`, `safeText`, `imgUrl`.
- `wikiitems.dfy` (`WikiItems`): `normItem` and `matchesQuery`.
- `wikipages.dfy` (`WikiPages`): the page filter, the pill tags and the card key/value list.

## Behaviour worth noting

- The slot is cleared first. `setSlotFromUrl` clears its slot before looking
  at the URL or the base (modeler.js:205). A refused request or a failed load
  therefore leaves the slot empty. `Modeler.Character.SetSlotFromUrl` states
  this.
- A new `loadBase` starts by dropping the current base and emptying every
  slot (modeler.js:241-248), before the file is loaded. A failed load
  therefore leaves the character with no base at all.
- A base without a skeleton stays loaded. When the new base has no skinned
  mesh, the error is thrown after the model has been attached
  (modeler.js:258-263). `baseModel` stays set while `baseSkeleton` is null.
  Later part requests are refused (`Modeler.BaseWithoutSkeletonRefusesParts`).
- Warnings are per mesh. An unmatched bone produces one warning for the mesh
  that has it, whatever the number of unmatched bones (modeler.js:162-165).
  The unmatched bone is dropped from the new skeleton (line 160). So the
  rebound bone list can be shorter than the part's, and positions after the
  first unmatched bone shift.
- Card entries are dropped on falsiness. A card's extra entry is dropped when
  it is falsy or when its `k` or `v` is `undefined` (wiki-shared.js:145-146).
  A `null` key or value is kept as the text "null".

## Model

| member | source | states |
|---|---|---|
| Scene.FindFirstSkeletonIsFirstInPreOrder | modeler.js:134-141 | `findFirstSkeleton` returns the skeleton of the first skinned mesh with a skeleton in `traverse` order (node before children, children in order), and nothing when there is none |
| Scene.BuildBoneMap | modeler.js:143-147 | the loop builds exactly the name-to-bone map of the skeleton's bones; its keys are the bones' names |
| Scene.BoneMapOf | modeler.js:143-147 | every key maps to a bone of the list that carries that name, and the keys are exactly the names in the list |
| Scene.BoneMapLastWins | modeler.js:145 | of several bones with one name, the map holds the last one set |
| Scene.RemapBones | modeler.js:160 | the remapped list is no longer than the part's; it has the same length exactly when every part bone name is in the base map; every entry is a base bone |
| Scene.RemapIsLookupOfMatchedNames | modeler.js:160 | the remapped list is the base-map lookup of the part's matched bone names, in the part's order |
| Scene.RemapCountsUnmatched | modeler.js:160 | the remapped list is shorter than the part's by exactly the number of unmatched names |
| Scene.RemapAgainstBaseKeepsNames | modeler.js:160 | against the base skeleton's own map, every rebound bone is a bone of the base skeleton and the rebound names are the part's matched names in order |
| Scene.RemapKeepsNames | modeler.js:160 | against any map that files each bone under its own name, the rebound names are the part's matched names, in the part's order |
| Scene.MismatchIffUnmatchedName | modeler.js:162 | the length test flags a mesh exactly when one of its bone names is not in the base map |
| Scene.LookUp | modeler.js:160 | looking up all-matched names gives one base bone per name, position by position |
| Scene.RebindNode | modeler.js:157-178 | a skinned mesh with a skeleton gets a new skeleton of the remapped bones and its old inverse bind matrices, keeps its bind matrix, has frustum culling turned off and its material (if any) flagged for skinning and update; any other node is unchanged |
| Scene.RebindAtVisit | modeler.js:156-179 | the rebound tree visits as many nodes as the part, and its i-th visited node, children aside, is `RebindNode` of the part's i-th visited node, with the same number of children; a bound node gets the remapped skeleton and keeps its bind matrix |
| Scene.WarningsAreMismatchesInPreOrder | modeler.js:162-165 | the warnings are the names of the mismatched meshes, one each, in traversal order |
| Scene.RebindToBaseSkeleton | modeler.js:181-184 | the rebound part's root has position 0, rotation 0 and scale 1, and keeps its name and its number of children |
| Scene.RebindToBaseSkeletonUsesBaseBones | modeler.js:153-185 | after rebinding against the base skeleton's bone map, every skeleton anywhere in the part references only bones of the base skeleton |
| Modeler.ImportScaleIsOverridden | modeler.js:222-224 | the 0.01 scale set before rebinding is overwritten, so the attached part is the same as rebinding the fragment as loaded and its root transform is the identity |
| Modeler.RemoveFirst | modeler.js:201 | removing a child takes exactly one occurrence out when it is present and none otherwise |
| Modeler.Group.Add | modeler.js:225 | the new child is appended after the old children |
| Modeler.Group.Remove | modeler.js:201 | the children lose the first occurrence of the removed node |
| Modeler.Character.constructor | modeler.js:97-109 | six slots, each an empty group of its own, and no base model, skeleton or bone map |
| Modeler.Character.ClearSlot | modeler.js:199-202 | a known slot ends with no children and every other slot is unchanged; an unknown name changes nothing; the state stays valid |
| Modeler.Character.SetSlotFromUrl | modeler.js:204-233 | the slot is cleared first; an empty URL stops there, a missing base refuses, a failed load leaves the slot empty; otherwise the slot holds exactly the scaled and rebound part and the outcome carries its mismatch warnings; other slots and the base never change; every held part binds only bones of the current base skeleton |
| Modeler.Character.ClearAllSlots | modeler.js:248 | every slot ends empty |
| Modeler.Character.LoadBase | modeler.js:235-264 | a blank trimmed path changes nothing; otherwise every slot is emptied; a failed load leaves no base; a loaded base is placed at scale 0.01 and its first skeleton becomes the base skeleton; with no skeleton the bone map stays empty, else it is the map of the skeleton's bones |
| Modeler.Character.DropBase | modeler.js:241-246 | afterwards there is no base model, no base skeleton and no bone map |
| Modeler.Character.InstallBase | modeler.js:251-263 | the cloned base is placed at scale 0.01 and becomes the base model, and its first skeleton becomes the base skeleton; without one the outcome is the missing-skeleton error and there is no bone map, otherwise the bone map is the map of that skeleton's bones; the state is valid |
| Modeler.PartBeforeBaseIsRefused | modeler.js:206-211 | before any base is loaded, a part request to any slot is refused and leaves the slot empty |
| Modeler.BaseWithoutSkeletonRefusesParts | modeler.js:260-263 | after a base without a skinned mesh, a part request is refused and its slot is empty |
| Modeler.SetTwiceKeepsOne | modeler.js:204-225 | setting one slot twice leaves exactly one part in it, the second one rebound |
| WikiText.SlugId | wiki-shared.js:16-21 | the result is a slug: lower-case letters, digits and single inner dashes, with no dash at either end |
| WikiText.SlugIdIdempotent | wiki-shared.js:16-21 | applying `slugId` to a slug gives it back |
| WikiText.SlugIdKeepsAlphanumerics | wiki-shared.js:16-21 | the letters and digits of the slug are exactly those of the lower-cased input, in order |
| WikiText.CollapseRuns | wiki-shared.js:19 | the result holds only letters, digits and dashes, never two dashes in a row, and started inside a run it does not start with a dash |
| WikiText.CollapseRunsJoinsWords | wiki-shared.js:19 | inside a run, the collapsed text is the words of the input (its maximal runs of `[a-z0-9]`) joined by single dashes, plus one dash exactly when the input ends with other characters after a word |
| WikiText.SlugIdIsJoinedWords | wiki-shared.js:16-21 | `slugId` is exactly the words of the lower-cased input (its maximal runs of `[a-z0-9]`) joined by single dashes, so "a b" gives "a-b" while "ab" gives "ab" |
| WikiText.StripDashEndsMakesSlug | wiki-shared.js:20 | stripping a leading and a trailing dash from collapsed text leaves a slug |
| WikiText.Escape | wiki-shared.js:103-111 | escaped text contains none of `<`, `>`, `"`, `'` |
| WikiText.UnescapeEscape | wiki-shared.js:103-111 | reading the five entities back gives the original string |
| WikiText.EscapeCopiesPlainText | wiki-shared.js:103-111 | text without any of `&<>"'` is copied unchanged |
| WikiText.EscapeAppend | wiki-shared.js:104 | escaping works character by character: it distributes over concatenation |
| WikiText.MoneyCell | wiki-shared.js:113-118 | never empty; `null`, `undefined` or a blank value shows the em dash, anything else its trimmed text |
| WikiText.SafeText | wiki-shared.js:120-123 | never empty; `null`, `undefined` or a blank value shows the em dash, anything else its trimmed text |
| WikiText.MoneyCellIsSafeText | wiki-shared.js:113-123 | the two helpers agree on every value |
| WikiText.MoneyCellIsTrimmed | wiki-shared.js:113-118 | what is shown has no white space at either end |
| WikiText.ImgUrl | wiki-shared.js:9-14 | empty exactly when the file name is falsy or blank; otherwise the file-path prefix followed by the encoded trimmed name |
| WikiItems.OrEmptyReadsAlike | wiki-shared.js:25 | reading a property of `it \|\| {}` gives the same as reading it of `it` |
| WikiItems.NormItemPrices | wiki-shared.js:34-40 | a price is absent exactly when the field is `null`, `undefined` or blank; otherwise it is the field's text, untrimmed |
| WikiItems.NormItemTextTrimmed | wiki-shared.js:26-31 | name, image, notes and id have no white space at their ends |
| WikiItems.NormItemIdFallsBackToSlug | wiki-shared.js:31 | with a falsy `id`, the id is the slug of the normalised name |
| WikiItems.NormItemLists | wiki-shared.js:29-43 | `tags`, `kv` and `search` are the input arrays when they are arrays and empty otherwise |
| WikiItems.NormItemKeepsOtherFields | wiki-shared.js:45 | every property outside the nine normalised ones is carried over unchanged |
| WikiItems.NormItemIsNormal | wiki-shared.js:24-46 | a normalised item has trimmed name, image, notes and id, no other property under one of the nine normalised names, and prices that normalise to themselves |
| WikiItems.NormalItemTwice | wiki-shared.js:24-46 | an item in normal form, read back as an object, normalises to itself unless its id is empty while its name has a non-empty slug |
| WikiItems.NormItemTwice | wiki-shared.js:24-46 | unless the input id is truthy but blank, normalising an already normalised item (as `renderGrid` does at line 129) changes nothing |
| WikiItems.NormItemTwiceChangesBlankId | wiki-shared.js:31 | a truthy blank id becomes the empty id, and normalising again replaces it by the slug of the name |
| WikiItems.BlankQueryMatchesAll | wiki-shared.js:84-85 | a blank query matches every item |
| WikiItems.MatchesQueryIgnoresCase | wiki-shared.js:84-97 | two queries that lower-case alike match the same items |
| WikiItems.MatchInPartMatchesItem | wiki-shared.js:89-99 | a query contained in the name, id, notes, a tag or a search token (lower-cased) matches the item |
| WikiItems.NameMatches | wiki-shared.js:90 | a query contained in the lower-cased name matches the item |
| WikiPages.PageItemsSpec | wiki-shared.js:265-270 | the shown items keep the order of all items, and each item is shown as often as it occurs exactly when it has the active tag (or the tag is "All") and matches the trimmed query, and not at all otherwise |
| WikiPages.AllPillKeepsEveryTag | wiki-shared.js:269 | with the "All" pill, only the query filters |
| WikiPages.BlankSearchKeepsEveryMatch | wiki-shared.js:265-270 | with a blank search box, only the tag filters |
| WikiPages.FlatTagsMembership | wiki-shared.js:58 | a tag is in the flattened list exactly when some item carries it |
| WikiPages.PillTagsSpec | wiki-shared.js:58 | the pill tags are sorted by string order, have no repeats, and are exactly the tags some item carries |
| WikiPages.PillLabels | wiki-shared.js:76-77 | the pill row is "All" followed by one pill per tag |
| WikiPages.InsertTag | wiki-shared.js:58 | inserting keeps every element: the result is the list with one more copy of the new tag |
| WikiPages.SortTags | wiki-shared.js:58 | sorting is a permutation of its input |
| WikiPages.SortTagsSorted | wiki-shared.js:58 | sorting gives an ordered list |
| WikiPages.TagLeTotal | wiki-shared.js:58 | any two tags are ordered one way or the other |
| WikiPages.TagLeTransitive | wiki-shared.js:58 | the tag order is transitive |
| WikiPages.KvEntriesAreKeptEntries | wiki-shared.js:144-148 | the extra card entries are the kept entries' key and value texts, in order |
| WikiPages.BuildKvPairs | wiki-shared.js:141-148 | a card's list starts with Buy and Sell shown through `moneyCell`, followed by the extra entries |
| WikiPages.PriceCell | wiki-shared.js:142-143 | an absent or blank price shows the em dash, any other its trimmed text |
| Seqs.FilterIsSubsequence | wiki-shared.js:268-270 | a filtered list keeps order: it is a subsequence of the input |
| Seqs.FilterMultiplicity | wiki-shared.js:268-270 | an element passing the test keeps all its occurrences; one failing it keeps none |
| Seqs.Dedup | wiki-shared.js:58 | `[...new Set(xs)]` has no repeats, is no longer than its input and holds exactly the input's elements |
| Seqs.DedupIsSubsequence | wiki-shared.js:58 | `[...new Set(xs)]` keeps the input's order: it is a subsequence of it |
| Text.StartOfTextSkipsWhite | wiki-shared.js:26 | what `trim` drops at the front is white space, and it stops at the first character that is not, or at the end |
| Text.EndOfTextSkipsWhite | wiki-shared.js:26 | what `trim` drops at the back is white space, and it stops at the last character that is not, or where the front trimming stopped |
| Text.TrimIsMiddle | wiki-shared.js:26 | the trimmed string is the middle of the input, between a white run at the front and one at the back |
| Text.TrimHasNoWhiteEnds | wiki-shared.js:26 | the trimmed string neither starts nor ends with white space |
| Text.TrimEmptyIff | wiki-shared.js:10-11 | a string trims to nothing exactly when it is all white space |
| Text.TrimIdempotent | wiki-shared.js:26 | trimming twice is trimming once |
| Text.LowerTrim | wiki-shared.js:84 | lower-casing and trimming commute |
| Text.JoinContainsPart | wiki-shared.js:96 | every part stands in the joined string |
| Text.LexLeAntisymmetric | wiki-shared.js:58 | two strings ordered both ways are equal |

## Left out

- Rendering is not modelled: the renderer, camera, lights, controls,
  `frameCharacter` and the animation loop. They only display the scene.
- The FBX loader and `SkeletonUtils.clone` are not modelled. Their result is
  an input to `SetSlotFromUrl` and `LoadBase` (a fragment or a load error).
  The file format is not modelled.
- `THREE.Skeleton` internals are not modelled; matrices are opaque tokens
  and are never computed with. Positions, rotations and scales are reals,
  not floats.
- The scene graph is a tree value. `rebindToBaseSkeleton` mutates the part
  in place; the model returns the rebound tree instead. Aliasing between a
  part and other scene objects, and the parent links of `Object3D`, are not
  modelled.
- `characterRoot` is not modelled as a group: the base model is the
  `baseModel` field and each slot is its own group.
- The unused `baseSkel` parameter of `rebindToBaseSkeleton` is not modelled;
  only the bone map is used.
- The material-array case of `o.material` is not modelled: a material is one
  value or absent.
- `console.warn`, `console.error`, `setStatus` and `alert` are not modelled
  as output. Mismatch warnings are returned as values; status texts and
  alerts are represented only by the outcome value.
- `async` overlap is not modelled: two loads running at once, with their
  awaits interleaved. Each operation is modelled as running to completion.
- Modeler.Character.ClearSlot: an unknown slot name throws a `TypeError` in
  the source. It is modelled as a `false` result that changes nothing. The
  matching `SetSlotFromUrl` outcome is `UnknownSlot`.
- `toLowerCase` is ASCII only in the model. JavaScript also lower-cases
  non-ASCII letters, some of which become ASCII letters, such as the Kelvin
  sign. String order compares code points where JavaScript compares UTF-16
  code units.
- `encodeURIComponent` is a parameter of `ImgUrl`; its escaping is not modelled.
- WikiItems.NormItem: the object spread copies the other properties only
  from a plain-object input. The own properties of a truthy non-object or an
  array (a string's or an array's indices, say) are not carried over.
- WikiPages.PillTagsSpec: `Set` and `includes` compare objects by identity;
  the model compares tag values structurally. Tags of other types compare
  through their string text, as the default `sort` does. Undefined tags sort
  last.
- WikiPages.PillTags: the order among distinct tags with the same text (the
  number 1 and the string "1") is not stated.
- The HTML templates of `renderGrid` and `renderTable`, and all DOM access,
  are not modelled: `setActiveNav`, the pill buttons' click handlers and the
  `active` state they close over, and `wirePage`'s grid/table `mode`. The
  model keeps the values those templates show (`EscapeHtml`, `MoneyCell`,
  `SafeText`, `ImgUrl`, the card key/value list).
