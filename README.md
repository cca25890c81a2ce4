# blve compiler core, modelled in Dafny

blve compiles a single-file component (a script block, markup and an
optional style block) into one JavaScript module. The model covers the core
of that translation and the runtime the generated module imports.

- **Script transformer** (`UtilsScript`, `UtilsText`).
  - Finds the top-level variable declarations of the script in its JSON syntax tree.
  - Numbers each declaration with the next power of two and wraps its initializer in `reactiveValue(..., n, refs)`.
  - Finds the identifiers that refer to those variables and need `.v`.
  - Splices the collected insertions into the script text.
  - Rewrites the `${...}` bindings of text as `${escapeHtml(...)}`, adding `.v` after every occurrence of the name of a variable that occurs there as a whole word, including occurrences inside longer words.
- **Markup transformer** (`Markup`, `MarkupProperties`, with the records of `Relations`, `TransformInfo` and `TransformTargets`).
  - A walk over the markup tree that classifies `@event`, `:if`, `::name` and `:name` attributes.
  - It gives an id to every element the generated code must look up.
  - It records event handlers, reactive attributes, reactive contents and if-blocks.
  - It queues edits of a node's children and applies them, sorted by location, once the walk is back at that node.
  - The class `Markup.Transformer` does this on its fields step by step and is proved to agree with a functional specification.
  - `LegacyMarkup` is the older walk still kept in `utils.rs`.
- **Code generator** (`GenerateJs`, `GenerateJsUpdate`, `GenerateJsEntry`).
  - The reference getter with its 32-bit "delete the id" bitmap.
  - The event listeners, the anchors for if-blocks and hand-rendered text, and the render functions of the if-blocks.
  - The update function, whose statements test the changed-variables mask `refs[2]` and the if-block context masks.
  - Indentation and the module wrapper.
- **Runtime** (`Runtime`).
  - The reactive cell `valueObj`, whose setter ORs its variable's number into the shared mask and schedules one update per batch of changes.
  - `genUpdateFunc`, `escapeHtml`, and the id test of `getElmRefs`.

Helper modules: `Wrappers` (`Option`, `Result`, `Failure`), `Strings`, `Masks` (bit arithmetic on unbounded naturals), `Json`, `HtmlTree` (the markup tree and its attribute map), and `Sorting` (the stable sort by location that both sorts in the source use).

Conventions:

- An error `Result` stands for the source's error returns and for its panics:
  - `Rejected(message)` is a message the source returns;
  - `Panic(reason)` is an `unwrap` of nothing, an arithmetic overflow or a shift past 32 bits, which aborts the compiler.
- The model follows the compiler built with Rust's overflow checks on, as in a debug build: every overflow the source can reach aborts. In a release build `2u64.pow` and `+=` wrap and `<<` masks its shift amount instead; that build is not modelled.
- `usize` is taken to be 64 bits wide, so `ctx_num as usize` keeps the whole `u64` context number.
- Integers are unbounded. Rust's `u32` arithmetic appears explicitly: `2u32.pow(k)` with `k >= 32` and `1u32 << s` with `s >= 32` abort; a `u64` power with index 64 or more aborts; `as u32` keeps the low 32 bits (`Masks.Low32`).
- The scan of `utils.rs` loops forever when a `${` has no later `}` (`UtilsText.UnclosedLoopsForever`). The markup scan of `html_utils.rs` repeats the same pass there too, but counts each pass in a `u32` and so aborts once the count overflows. The methods that perform the scans require the text to be `Closed`, and `UtilsText.ClosedIff` says exactly when that holds.

## Model

| member | source | states |
|---|---|---|
| UtilsScript.Concat | crates/blve_generator/src/transformers/utils.rs:36-49 | joining two search results fails exactly when one of them fails; otherwise the lists are concatenated in order |
| UtilsScript.IdentifierInsertionSound | crates/blve_generator/src/transformers/utils.rs:14-34 | an identifier yields at most one insertion, and it is a `.v` placed after a reference to a declared variable whose parent object is not a `VariableDeclarator` |
| UtilsScript.SearchJsonSound | crates/blve_generator/src/transformers/utils.rs:9-52 | every insertion `search_json` returns is a `.v` after a reference, reachable in the tree, to one of the declared variables |
| UtilsScript.SearchFieldsSound | crates/blve_generator/src/transformers/utils.rs:36-41 | each insertion from an object's fields comes from one of the fields searched so far, with that object as parent |
| UtilsScript.SearchItemsSound | crates/blve_generator/src/transformers/utils.rs:43-49 | each insertion from an array comes from one of the items searched so far, searched without a parent |
| UtilsScript.SearchJson | crates/blve_generator/src/transformers/utils.rs:9-52 | a scalar yields no insertion, and neither does an identifier reached with no parent object (an array item or the root) |
| UtilsScript.IdentifierInsertionComplete | crates/blve_generator/src/transformers/utils.rs:14-34 | an identifier naming a declared variable below a non-`VariableDeclarator` object, with a non-zero span end, yields exactly the `.v` insertion at `end - 1` |
| UtilsScript.SearchJsonFieldOrderFree | crates/blve_generator/src/transformers/utils.rs:14-41 | the result of searching an object does not depend on the order in which the map yields its fields: success is the same, and the insertions are the same multiset, each counted as often as it occurs |
| UtilsScript.EntriesPermuted | crates/blve_generator/src/transformers/utils.rs:36-40 | the field loop over a reordering of the same fields succeeds exactly when the original does, with the same multiset of insertions |
| UtilsScript.FieldsAsEntries | crates/blve_generator/src/transformers/utils.rs:36-40 | the field loop over the first `n` fields, with the object as the parent, is the search of that list of fields |
| Json.LookupPermuted | crates/blve_generator/src/transformers/utils.rs:15-23 | with distinct keys, `get(key)` gives the same value however the fields are ordered |
| UtilsScript.SearchJsonComplete | crates/blve_generator/src/transformers/utils.rs:9-52 | every reference to a declared variable that the search reaches has its `.v` insertion in the result (the converse of `SearchJsonSound`) |
| UtilsScript.SearchFieldsComplete | crates/blve_generator/src/transformers/utils.rs:36-41 | an insertion owed to a reference below field `i` is among those of the first `n > i` fields |
| UtilsScript.SearchItemsComplete | crates/blve_generator/src/transformers/utils.rs:43-49 | an insertion owed to a reference below item `i` is among those of the first `n > i` items |
| UtilsScript.ArrayIdentifiersUntouched | crates/blve_generator/src/transformers/utils.rs:43-49 | identifiers that are array items have no parent object, so they never get `.v` |
| UtilsScript.DeclaredNameUntouched | crates/blve_generator/src/transformers/utils.rs:16-19 | the name a declarator binds is not rewritten |
| UtilsScript.SpliceLength | crates/blve_generator/src/transformers/utils.rs:54-67 | the spliced script is as long as the script plus every inserted string |
| UtilsScript.SpliceRoundTrip | crates/blve_generator/src/transformers/utils.rs:54-67 | deleting the inserted strings again gives back the script: insertion loses and reorders nothing |
| UtilsScript.AddStringsToScript | crates/blve_generator/src/transformers/utils.rs:54-67 | succeeds exactly when the insertion points are ascending and inside the script (otherwise the slicing panics); the result is the splice of the insertions into the script |
| UtilsScript.PowerOfTwoGenerator.constructor | crates/blve_generator/src/transformers/utils.rs:162-163 | the captured counter starts at 0 |
| UtilsScript.PowerOfTwoGenerator.Next | crates/blve_generator/src/transformers/utils.rs:164-168 | the `k`-th call returns `2^k` (below `2^32`) and advances the counter; from the 33rd call on `2u32.pow` overflows and aborts |
| UtilsScript.PowersDisjoint | crates/blve_generator/src/transformers/utils.rs:162-169 | numbers from different calls share no bit, so each variable owns one bit of the change mask |
| UtilsScript.AssignSnoc | crates/blve_generator/src/transformers/utils.rs:111-127 | numbering one more declarator appends its variable and its two insertions, or fails with that declarator's failure |
| UtilsScript.AssignAllOk | crates/blve_generator/src/transformers/utils.rs:78-133 | numbering succeeds exactly when there are at most 32 usable declarators and no span starts or ends at 0; then there is one variable and two insertions per declarator |
| UtilsScript.AssignableSnoc | crates/blve_generator/src/transformers/utils.rs:111-127 | one more declarator keeps the list numberable exactly when fewer than 32 came before and its span starts and ends after 0 |
| UtilsScript.AssignAllAt | crates/blve_generator/src/transformers/utils.rs:111-127 | the `k`-th usable declarator is variable `k`, numbered `2^k`, with `reactiveValue(` at `start - 1` and `, 2^k, refs)` at `end - 1` |
| UtilsScript.AssignAllLast | crates/blve_generator/src/transformers/utils.rs:111-127 | a successful numbering ends with the entries of the last declarator, numbered `2^(n-1)` |
| UtilsScript.NoBodyNoDeclarations | crates/blve_generator/src/transformers/utils.rs:75-136 | a tree without a `body` array declares nothing |
| UtilsScript.OtherItemsIgnored | crates/blve_generator/src/transformers/utils.rs:80 | body items that are not `VariableDeclaration`s contribute nothing |
| UtilsScript.AssignErrPersists | crates/blve_generator/src/transformers/utils.rs:113-125 | once numbering has aborted, later declarators do not change the outcome |
| UtilsScript.ItemFailureIsFinal | crates/blve_generator/src/transformers/utils.rs:82-128 | an abort while numbering a declarator of one body item is the result of the whole search |
| UtilsScript.NumberDeclarators | crates/blve_generator/src/transformers/utils.rs:82-128 | the inner loop over one item's declarators numbers exactly the usable ones, in order, continuing the generator's count |
| UtilsScript.FindVariableDeclarations | crates/blve_generator/src/transformers/utils.rs:69-136 | the loop over body items and declarators returns the specification `VariableDeclarations`: the named declarators with an initializer span, numbered `1, 2, 4, ...`, with their two insertions each |
| UtilsText.FirstNonAlnum | crates/blve_generator/src/transformers/utils.rs:359 | the first separator of a text, or none when the whole text is alphanumeric |
| UtilsText.PiecesAlnum | crates/blve_generator/src/transformers/utils.rs:358-361 | every piece of the split is an alphanumeric run |
| UtilsText.WordExistsInText | crates/blve_generator/src/transformers/utils.rs:358-361 | only an alphanumeric word can be found; `WordExistsIff` states it is found exactly when it occurs as a whole word |
| UtilsText.WholeWordAtStart | crates/blve_generator/src/transformers/utils.rs:358-361 | a whole word at the start of a text is exactly its leading alphanumeric run |
| UtilsText.WholeWordPastSeparator | crates/blve_generator/src/transformers/utils.rs:358-361 | a whole word after the first separator is a whole word of the rest of the text |
| UtilsText.WordExistsIff | crates/blve_generator/src/transformers/utils.rs:358-361 | `word_exists_in_text` holds exactly when the word occurs in the text delimited by non-alphanumerics or the ends of the text |
| UtilsText.AppendVDependencies | crates/blve_generator/src/transformers/utils.rs:305-322 | the dependency list only grows: the old list is a prefix, each added name is one of the variables, occurs in the text as a word and was not a dependency yet, and no duplicate appears |
| UtilsText.AppendVComplete | crates/blve_generator/src/transformers/utils.rs:311-319 | every variable that occurs in the text as a word ends up a dependency |
| UtilsText.AppendVKnown | crates/blve_generator/src/transformers/utils.rs:313 | when every variable is already a dependency, nothing is recorded and the text is unchanged |
| UtilsText.AppendVAbsent | crates/blve_generator/src/transformers/utils.rs:312 | a text naming none of the variables as a word is returned unchanged |
| UtilsText.AppendVRewritesInsideWords | crates/blve_generator/src/transformers/utils.rs:305-322 | with `a` found as a word in `a + ab`, both occurrences of `a` get `.v`, the one inside `ab` included |
| UtilsText.ReplaceInsideWords | crates/blve_generator/src/transformers/utils.rs:318 | replacing every occurrence of `a` in `a + ab` rewrites inside the longer word too |
| UtilsText.AppendVToVars | crates/blve_generator/src/transformers/utils.rs:305-322 | the loop returns the fold `AppendV`, whose properties are the four lemmas above |
| UtilsText.EscapeCall | crates/blve_generator/src/transformers/utils.rs:301-303 | the expression wrapped in a call of the runtime `escapeHtml`: the prefix `escapeHtml(`, the closing parenthesis and twelve characters more than the expression |
| UtilsText.EscapeCallRoundTrip | crates/blve_generator/src/transformers/utils.rs:301-303 | the wrapped expression can be read back out of `escapeHtml(...)` |
| UtilsText.CloseOccurrence | crates/blve_generator/src/transformers/utils.rs:330 | the end tag occurs exactly where a `}` is |
| UtilsText.BindingBounds | crates/blve_generator/src/transformers/utils.rs:335-341 | a found `${` lies inside the text, and the `}` after it cannot be the `{` of the start tag |
| UtilsText.ClosedIff | crates/blve_generator/src/transformers/utils.rs:335-351 | the scan terminates exactly when every `${` at or after its start has a later `}` |
| UtilsText.StepAt | crates/blve_generator/src/transformers/utils.rs:335-350 | one pass of the loop never moves `last_end` backwards |
| UtilsText.UnclosedLoopsForever | crates/blve_generator/src/transformers/utils.rs:335-351 | when some `${` has no later `}`, the loop reaches a position from which a pass finds that `${` again without moving: it never terminates |
| UtilsText.SplitCountBound | crates/blve_generator/src/transformers/utils.rs:335-353 | every binding the scan finds takes at least three characters of the text |
| UtilsText.SplitRestores | crates/blve_generator/src/transformers/utils.rs:335-353 | the text before each binding, the binding and the tail put back together give the text: the scan loses nothing |
| UtilsText.RestoreStep | crates/blve_generator/src/transformers/utils.rs:335-353 | one `${...}` binding followed by the pieces of the rest reassembles into the text from the binding's start |
| UtilsText.NoOpenNoBinding | crates/blve_generator/src/transformers/utils.rs:335-353 | a text without `${` has no binding and is copied whole |
| UtilsText.SplitStep | crates/blve_generator/src/transformers/utils.rs:335-349 | the first binding runs from the first `${` to the first `}` after it, and the scan resumes after that `}` |
| UtilsText.ScanStep | crates/blve_generator/src/transformers/utils.rs:339-349 | one pass appends the text before the binding and `${escapeHtml(e)}` for the rewritten expression `e`, and passes on the grown dependency list |
| UtilsText.ScanTextIsSplit | crates/blve_generator/src/transformers/utils.rs:335-353 | the output is the split text with each binding's expression rewritten in order and wrapped in `escapeHtml(...)` |
| UtilsText.ScanDepsIsSplit | crates/blve_generator/src/transformers/utils.rs:332-345 | the returned dependencies are those of rewriting the bindings one after another |
| UtilsText.GrowsTrans | crates/blve_generator/src/transformers/utils.rs:305-322 | growing the dependency list twice is growing it once |
| UtilsText.ScanDependencies | crates/blve_generator/src/transformers/utils.rs:328-356 | the scan's dependencies are distinct variables that occur in the text, added in order |
| UtilsText.ScanNoBinding | crates/blve_generator/src/transformers/utils.rs:335-355 | a text without `${` comes back unchanged with no dependency |
| UtilsText.ReplaceTextWithReactiveValue | crates/blve_generator/src/transformers/utils.rs:328-356 | the loop returns the scan's text and dependencies, whose meaning the lemmas above give |
| TransformInfo.ToString | crates/blve_generator/src/structs/transform_info.rs:41-51 | a function reference is printed as its name, a statement as `()=>statement`, a binding statement as `(arg)=>statement` |
| TransformInfo.New | crates/blve_generator/src/structs/transform_info.rs:53-64 | a handler from an attribute is never a binding statement |
| TransformInfo.WordIsOneWord | crates/blve_generator/src/structs/transform_info.rs:66-70 | a name that counts as one word holds no space, tab, newline, parenthesis, `=`, `;`, `.` or `+`: it cannot be a call or a statement |
| TransformInfo.TrimLastInside | crates/blve_generator/src/structs/transform_info.rs:56 | the last character of the trimmed handler is a character of the handler |
| TransformInfo.OneWordIsNoCall | crates/blve_generator/src/structs/transform_info.rs:56-59 | a one-word handler cannot end with `)` once trimmed, so the first two branches never overlap |
| TransformInfo.NewRefIffOneWord | crates/blve_generator/src/structs/transform_info.rs:53-70 | a handler becomes a function reference exactly when all its characters are alphanumeric, `_` or `$` |
| TransformInfo.NewKeepsCalls | crates/blve_generator/src/structs/transform_info.rs:56-57 | a handler ending in a call is kept verbatim as a statement, variables and all |
| TransformInfo.NewEmptyIsRef | crates/blve_generator/src/structs/transform_info.rs:58-70 | the empty handler is a function reference with an empty name |
| TransformInfo.NewWithoutVariables | crates/blve_generator/src/structs/transform_info.rs:60-62 | a statement that names no variable as a word is kept verbatim |
| TransformInfo.RefRoundTrip | crates/blve_generator/src/structs/transform_info.rs:41-70 | a one-word function name renders as itself and reads back as the same function reference |
| TransformInfo.HandlerRoundTrip | crates/blve_generator/src/structs/transform_info.rs:41-64 | printing a handler and reading it back gives the same handler |
| TransformTargets.SortElmAndReactiveInfo | crates/blve_generator/src/structs/transform_targets.rs:27-43 | the relations end up ordered by `elm_loc` (lexicographically), as a permutation of the input, equal to the stable sort `Sorting.SortByKey` |
| TransformTargets.CtxNum | crates/blve_generator/src/structs/transform_targets.rs:45-56 | the context number of `n` blocks is below `2^n` |
| TransformTargets.CtxNumBit | crates/blve_generator/src/structs/transform_targets.rs:45-56 | bit `i` of the context number is set exactly when if-block `i`'s parent id is in the context |
| TransformTargets.CtxNumEmpty | crates/blve_generator/src/structs/transform_targets.rs:45-56 | outside every if-block the context number is 0 |
| TransformTargets.CtxNumBelow | crates/blve_generator/src/structs/transform_targets.rs:45-56 | when no block from index `n` on is in the context, the number fits in `n` bits |
| TransformTargets.GenerateCtxNum | crates/blve_generator/src/structs/transform_targets.rs:45-69 | the loop of both `generate_ctx_num`s returns the context number (below `2^64`), and aborts exactly when a block at index 64 or more is in the context |
| Sorting.InsertMultiset | crates/blve_generator/src/structs/transform_targets.rs:27-43 | inserting into the sorted prefix adds exactly that element |
| Sorting.InsertWithKey | crates/blve_generator/src/structs/transform_targets.rs:27-43 | inserting keeps the order of the elements with the inserted key, placing the new one last |
| Sorting.InsertSorted | crates/blve_generator/src/structs/transform_targets.rs:27-43 | inserting into a sorted list keeps it sorted |
| Sorting.SortByKeySorted | crates/blve_generator/src/transformers/html_utils.rs:192-203 | `sort_by` on a location key yields a list ordered by that key |
| Sorting.SortByKeyMultiset | crates/blve_generator/src/transformers/html_utils.rs:192-203 | the sorted list is a permutation of the input |
| Sorting.SortByKeyStable | crates/blve_generator/src/transformers/html_utils.rs:192-203 | elements with equal locations keep their relative order, as Rust's stable `sort_by` promises |
| Sorting.SortByKey | crates/blve_generator/src/transformers/html_utils.rs:192-203 | the stable sort keeps the number of elements |
| Sorting.SortInPlace | crates/blve_generator/src/structs/transform_targets.rs:27-43 | sorting the vector in place leaves it holding the stable sort of its old contents |
| Sorting.LocLeTotal | crates/blve_generator/src/structs/transform_targets.rs:42 | any two locations are comparable under `Vec::cmp` |
| Sorting.LocLeTrans | crates/blve_generator/src/structs/transform_targets.rs:42 | the location order is transitive |
| Sorting.LocLeAntisym | crates/blve_generator/src/structs/transform_targets.rs:42 | two locations that are each at most the other are equal |
| Sorting.LocLeRefl | crates/blve_generator/src/structs/transform_targets.rs:42 | every location is at most itself |
| HtmlTree.GetAttr | crates/blve_generator/src/transformers/html_utils.rs:366 | the lookup finds a value exactly when the key is present, and the value found is stored under that key |
| HtmlTree.HasKeyIsGet | crates/blve_generator/src/transformers/html_utils.rs:366 | a key is present exactly when its lookup finds something |
| HtmlTree.InsertAttr | crates/blve_generator/src/transformers/html_utils.rs:381-383 | inserting grows the attribute list by at most one entry |
| HtmlTree.RemoveAttr | crates/blve_generator/src/transformers/html_utils.rs:60 | removing never grows the attribute list |
| HtmlTree.InsertAttrGet | crates/blve_generator/src/transformers/html_utils.rs:381-383 | after an insert, the key holds the new value and every other key is unchanged |
| HtmlTree.InsertAttrUnique | crates/blve_generator/src/transformers/html_utils.rs:381-383 | inserting keeps the attribute keys unique |
| HtmlTree.RemoveAttrGet | crates/blve_generator/src/transformers/html_utils.rs:60 | after a removal the key is absent and every other key is unchanged |
| HtmlTree.RemoveAttrUnique | crates/blve_generator/src/transformers/html_utils.rs:60 | removing keeps the attribute keys unique |
| HtmlTree.IndexOfUuid | crates/blve_generator/src/transformers/html_utils.rs:216-217 | the position of the first child with the given uuid, or none when no child has it |
| HtmlTree.NextElement | crates/blve_generator/src/transformers/html_utils.rs:220-236 | the first element child at or after a position, or none |
| HtmlTree.RemoveChild | crates/blve_generator/src/transformers/html_utils.rs:216-222 | removing a child fails exactly when no child has the uuid; otherwise one child fewer, the detached node has the uuid, and the anchor index, when present, points one past an element sibling |
| HtmlTree.RemoveChildDistance | crates/blve_generator/src/transformers/html_utils.rs:216-240 | the distance counts the removed child and the non-elements after it; there is a next element exactly when that run ends before the last child |
| Markup.ReplaceTextWithReactiveValue | crates/blve_generator/src/transformers/html_utils.rs:403-439 | the markup version of the scan returns the scan's text and the dependencies of every binding in order, and counts the bindings; the count is at most a third of the text's length |
| Markup.ScanSoFarClose | crates/blve_generator/src/transformers/html_utils.rs:415-419 | inside the loop, every `${` found has its `}` |
| Markup.ScanSoFarEnd | crates/blve_generator/src/transformers/html_utils.rs:436-438 | when no `${` is left, appending the rest of the text completes the scan's result |
| Markup.ScanSoFarStep | crates/blve_generator/src/transformers/html_utils.rs:420-432 | one binding appends its wrapped expression and its variables and counts one more binding |
| Markup.SplitCountStep | crates/blve_generator/src/transformers/html_utils.rs:416 | each pass of the loop counts exactly one binding of the split |
| Markup.HtmlScanStep | crates/blve_generator/src/transformers/html_utils.rs:420-432 | one pass of the markup scan is one step of the shared scan specification |
| Markup.TextWithoutBindings | crates/blve_generator/src/transformers/html_utils.rs:403-439 | a text without `${` is left alone, depends on nothing and has no binding |
| Markup.TextDependencies | crates/blve_generator/src/transformers/html_utils.rs:426-432 | a text's dependencies are the variables of its bindings, in order, duplicates kept |
| Markup.HtmlRewriteDeps | crates/blve_generator/src/transformers/html_utils.rs:432 | rewriting the bindings one by one appends each one's variables |
| Markup.FindReactiveAttrFromId | crates/blve_generator/src/transformers/html_utils.rs:484-500 | the first attribute relation whose element id is the given id, or none when there is none |
| Markup.SetIdSetsId | crates/blve_generator/src/transformers/html_utils.rs:360-392 | afterwards the element's `id` is the returned id, that id is recorded, and no other attribute changes |
| Markup.SetIdKeepsNamesDistinct | crates/blve_generator/src/transformers/html_utils.rs:366-391 | recorded id names stay distinct as long as a fresh id is new |
| Markup.SetIdCases | crates/blve_generator/src/transformers/html_utils.rs:366-391 | an element with an id keeps it and records it once, as not to delete; one without gets the next fresh id, recorded as to delete |
| Markup.RelationFor | crates/blve_generator/src/transformers/html_utils.rs:116-141 | the relation an `:attr` entry goes into is an attribute relation of the returned list |
| Markup.AttrFoldStep | crates/blve_generator/src/transformers/html_utils.rs:48 | the attribute loop handles the snapshot's entries one after another |
| Markup.AttrFoldErr | crates/blve_generator/src/transformers/html_utils.rs:111-144 | the first error of the attribute loop ends the walk and is its result |
| Markup.Anchor | crates/blve_generator/src/transformers/html_utils.rs:220-236 | when a removal leaves a next element, that sibling gets an id with the parent block's context and becomes the anchor; the other children are untouched |
| Markup.ApplyAllErr | crates/blve_generator/src/transformers/html_utils.rs:206-324 | the first failing edit ends the loop over the queue |
| Markup.CheckChildrenErr | crates/blve_generator/src/transformers/html_utils.rs:166-186 | the first failing child ends the walk over the children |
| Markup.Transformer.constructor | crates/blve_generator/src/generate_js.rs:34-39 | all lists start empty and no id has been drawn |
| Markup.Transformer.AnyIdName | crates/blve_generator/src/transformers/html_utils.rs:367 | the search over the recorded ids answers whether the id name is recorded |
| Markup.Transformer.SetIdForNeededElm | crates/blve_generator/src/transformers/html_utils.rs:360-392 | updates the recorded ids and the element as `SetId` specifies |
| Markup.Transformer.CheckAttribute | crates/blve_generator/src/transformers/html_utils.rs:48-164 | one attribute changes the lists, the attributes and the context as `AttrStep` specifies, or fails with its error |
| Markup.Transformer.EventAttribute | crates/blve_generator/src/transformers/html_utils.rs:50-60 | an `@event` attribute as `EventStep` specifies |
| Markup.Transformer.IfAttribute | crates/blve_generator/src/transformers/html_utils.rs:61-80 | a `:if` attribute as `IfStep` specifies |
| Markup.Transformer.BindAttribute | crates/blve_generator/src/transformers/html_utils.rs:81-108 | a `::name` attribute as `BindStep` specifies |
| Markup.Transformer.ReactiveAttribute | crates/blve_generator/src/transformers/html_utils.rs:109-164 | a `:name` attribute as `ReactiveAttrStep` specifies |
| Markup.Transformer.SetAnchor | crates/blve_generator/src/transformers/html_utils.rs:220-236 | choosing the anchor as `Anchor` specifies |
| Markup.Transformer.ApplyManipulation | crates/blve_generator/src/transformers/html_utils.rs:207-323 | one queued edit is applied when addressed to this node and skipped otherwise, as `ApplyStep` specifies |
| Markup.Transformer.RemoveIfBlock | crates/blve_generator/src/transformers/html_utils.rs:209-258 | detaching an if-block as `IfRemovalStep` specifies |
| Markup.Transformer.SetIdForContent | crates/blve_generator/src/transformers/html_utils.rs:259-270 | a reactive only child as `ContentIdStep` specifies |
| Markup.Transformer.RemoveTextNode | crates/blve_generator/src/transformers/html_utils.rs:271-321 | removing a reactive text among siblings as `TextRemovalStep` specifies |
| Markup.Transformer.CheckHtmlElms | crates/blve_generator/src/transformers/html_utils.rs:29-358 | the walk of a node and its sub-tree updates the lists and returns the node exactly as the specification `Check` does, including its errors |
| Markup.Transformer.CheckAttributes | crates/blve_generator/src/transformers/html_utils.rs:47-165 | the loop over the attribute snapshot agrees with `AttrFold` |
| Markup.Transformer.CheckChildNodes | crates/blve_generator/src/transformers/html_utils.rs:166-186 | the loop over the children agrees with `CheckChildren` |
| Markup.Transformer.ApplyManipulations | crates/blve_generator/src/transformers/html_utils.rs:192-324 | sorting the queue and applying the edits addressed to this node agrees with `ApplyAll` on the sorted queue |
| MarkupProperties.UnsupportedAttributes | crates/blve_generator/src/transformers/html_utils.rs:111-115 | `:innerHtml` and `:textContent` are refused with their messages |
| MarkupProperties.EventAttrEffect | crates/blve_generator/src/transformers/html_utils.rs:50-60 | an `@event` attribute keeps the context, is removed, leaves the element with an id, and changes no other attribute |
| MarkupProperties.EventAttrRecorded | crates/blve_generator/src/transformers/html_utils.rs:53-59 | an `@event` attribute with a value records exactly one action, for that event, with the handler classified by `EventTarget::new` and this node as target; without a value it records none |
| MarkupProperties.IfAttrEffect | crates/blve_generator/src/transformers/html_utils.rs:61-80 | `:if` aborts exactly when the condition or the parent is missing; otherwise it queues one removal for the parent, enters the block's context and leaves a valueless marker attribute |
| MarkupProperties.BindAttrEffect | crates/blve_generator/src/transformers/html_utils.rs:81-108 | `::name` keeps the context, is removed and leaves the element with an id |
| MarkupProperties.BindAttrRecorded | crates/blve_generator/src/transformers/html_utils.rs:84-107 | `::name="v"` records one `input` handler that assigns `event.target.name` to `v.v`, and one attribute relation that writes `v.v` back into `name` |
| MarkupProperties.ReactiveAttrEffect | crates/blve_generator/src/transformers/html_utils.rs:109-164 | `:name` without a value is refused; with one, the element gets `name="${e}"` for the rewritten expression `e`, loses `:name`, and some attribute relation ends with the new entry; at most one relation is added |
| MarkupProperties.ReactiveAttrJoinsRelation | crates/blve_generator/src/transformers/html_utils.rs:116-131 | an element whose `id` already names an attribute relation adds its entry to that relation and adds no relation |
| MarkupProperties.ReactiveAttrFallback | crates/blve_generator/src/transformers/html_utils.rs:116-141 | the relation is looked up by the `id` but created under the node's uuid, so an element whose id differs from its uuid gets a new relation each time |
| MarkupProperties.FindPrefix | crates/blve_generator/src/transformers/html_utils.rs:484-500 | the first match in a list stays the first match when the list grows |
| MarkupProperties.AttrStepUnique | crates/blve_generator/src/transformers/html_utils.rs:48-164 | every attribute step keeps the attribute keys unique |
| MarkupProperties.AttrFoldUnique | crates/blve_generator/src/transformers/html_utils.rs:48-164 | the whole attribute loop keeps the attribute keys unique |
| MarkupProperties.StaticTextUntouched | crates/blve_generator/src/transformers/html_utils.rs:328-355 | a text without `${` is kept as it is and queues nothing |
| MarkupProperties.ReactiveTextQueued | crates/blve_generator/src/transformers/html_utils.rs:328-355 | a text whose bindings read a variable aborts at the root, and otherwise queues exactly one edit for its parent: set-id for an only child, removal as a hand-rendered text among siblings |
| MarkupProperties.SetIdFrame | crates/blve_generator/src/transformers/html_utils.rs:360-392 | giving an id touches only the recorded ids (which only grow) and the count of drawn ids |
| MarkupProperties.AnchorFrame | crates/blve_generator/src/transformers/html_utils.rs:220-236 | choosing an anchor touches only the recorded ids and the drawn-id count, and keeps every child's uuid |
| MarkupProperties.RemovalFails | crates/blve_generator/src/transformers/html_utils.rs:216-217 | detaching fails exactly when no child has the uuid |
| MarkupProperties.IfRemovalTree | crates/blve_generator/src/transformers/html_utils.rs:209-258 | after a detach the element has one child fewer and an id, and the recorded anchor is an element child |
| MarkupProperties.IfRemovalRecord | crates/blve_generator/src/transformers/html_utils.rs:209-258 | a detach records exactly one if-block, with this node as parent, the detached element, the block id and the distance; it has a placeholder exactly when the distance is not 1, and an anchor exactly when an element follows |
| MarkupProperties.TextRemovalTree | crates/blve_generator/src/transformers/html_utils.rs:271-298 | after removing a reactive text the element has one child fewer and an id |
| MarkupProperties.TextRemovalRecord | crates/blve_generator/src/transformers/html_utils.rs:271-321 | removing a reactive text records exactly one hand-rendered text and one text relation, both describing that text node |
| MarkupProperties.ContentIdRecord | crates/blve_generator/src/transformers/html_utils.rs:259-270 | a reactive only child gives its parent an id and records one content relation, leaving the children as they are |
| MarkupProperties.ApplyAllKeepsQueue | crates/blve_generator/src/transformers/html_utils.rs:206-324 | applying the queue never changes the queue |
| MarkupProperties.ApplyStepKeepsQueue | crates/blve_generator/src/transformers/html_utils.rs:207-323 | applying one edit never changes the queue |
| MarkupProperties.ElementLeavesQueueSorted | crates/blve_generator/src/transformers/html_utils.rs:192-203 | after an element is walked, the whole queue is ordered by location |
| LegacyMarkup.SetIdForNeededElm | crates/blve_generator/src/transformers/utils.rs:197-217 | the inlined id logic as `SetId` specifies; afterwards the element's `id` is the returned id and that id is recorded |
| LegacyMarkup.SetId | crates/blve_generator/src/transformers/utils.rs:197-217 | giving an id never touches the recorded actions or relations |
| LegacyMarkup.EventAttributes | crates/blve_generator/src/transformers/utils.rs:189-227 | the loop over a snapshot of the attributes agrees with the fold `EventFold` |
| LegacyMarkup.CheckHtmlElms | crates/blve_generator/src/transformers/utils.rs:171-291 | the walk over a list of nodes returns the nodes, lists and dependencies the specification `Walk` gives |
| LegacyMarkup.CheckNode | crates/blve_generator/src/transformers/utils.rs:186-283 | one node of the list as `NodeStep` specifies |
| LegacyMarkup.Walk | crates/blve_generator/src/transformers/utils.rs:186-284 | the walk keeps every node's uuid and kind |
| LegacyMarkup.NodeStep | crates/blve_generator/src/transformers/utils.rs:187-283 | one node keeps its uuid and kind |
| LegacyMarkup.SetIdRecords | crates/blve_generator/src/transformers/utils.rs:197-217 | afterwards the element's `id` is the returned id, it is recorded, the recorded ids only grow, and no other attribute changes |
| LegacyMarkup.EventStepKeys | crates/blve_generator/src/transformers/utils.rs:191-225 | one `@` step removes its key, and `id` is the only key it may add |
| LegacyMarkup.EventFoldKeys | crates/blve_generator/src/transformers/utils.rs:189-227 | only `@` attributes are removed, and `id` is the only key added |
| LegacyMarkup.EventFoldClears | crates/blve_generator/src/transformers/utils.rs:189-227 | after the loop no attribute key starts with `@` |
| LegacyMarkup.SetIdKeepsNoEventKey | crates/blve_generator/src/transformers/utils.rs:241-261 | giving the element an id adds no `@` attribute |
| LegacyMarkup.WalkNoEventAttrs | crates/blve_generator/src/transformers/utils.rs:171-291 | no element of the returned tree keeps an `@` attribute |
| LegacyMarkup.NodeStepNoEventAttrs | crates/blve_generator/src/transformers/utils.rs:187-283 | no element of a rewritten node keeps an `@` attribute |
| LegacyMarkup.CoveredGrow | crates/blve_generator/src/transformers/utils.rs:234-236 | growing the recorded ids keeps every target covered |
| LegacyMarkup.CoveredJoin | crates/blve_generator/src/transformers/utils.rs:234-236 | joining a child's lists to the parent's keeps every target covered |
| LegacyMarkup.EventFoldCovered | crates/blve_generator/src/transformers/utils.rs:189-227 | every action the loop records targets a recorded id |
| LegacyMarkup.WalkCovered | crates/blve_generator/src/transformers/utils.rs:171-291 | every action's target and every relation's element id is an id the same call records |
| LegacyMarkup.NodeStepCovered | crates/blve_generator/src/transformers/utils.rs:187-283 | one node keeps every target covered |
| LegacyMarkup.ElementTailCovered | crates/blve_generator/src/transformers/utils.rs:238-271 | the relation for reactive content targets the id just recorded |
| LegacyMarkup.WalkReportsOnlyText | crates/blve_generator/src/transformers/utils.rs:185-283 | a call reports dependencies exactly when its list is a single text node |
| LegacyMarkup.EventFoldActions | crates/blve_generator/src/transformers/utils.rs:189-227 | the loop appends one action per `@name` attribute that has a value, in attribute order, with the event name and the handler text as written |
| GenerateJs.GetCombinedBinaryNumber | crates/blve_generator/src/generate_js.rs:585-591 | the loop computes the OR of all the numbers |
| GenerateJs.CombinedBit | crates/blve_generator/src/generate_js.rs:579-591 | a bit of the combination is set exactly when it is set in one of the numbers |
| GenerateJs.CombinedOrderFree | crates/blve_generator/src/generate_js.rs:585-591 | the order of the numbers does not matter |
| GenerateJs.CombinedExample | crates/blve_generator/src/generate_js.rs:580-584 | the documented example: `0b0001`, `0b0010` and `0b0100` give `0b0111` |
| GenerateJs.CombinedBelow | crates/blve_generator/src/generate_js.rs:585-591 | numbers that fit in `n` bits combine into a number that fits in `n` bits, so the `u32` result cannot overflow |
| GenerateJs.GenBinaryMapFromBool | crates/blve_generator/src/generate_js.rs:191-199 | the loop aborts exactly when a set flag's shift reaches 32; otherwise it returns the most-significant-first bitmap of the flags, below `2^32` |
| GenerateJs.BoolMapUpToBit | crates/blve_generator/src/generate_js.rs:193-197 | after `k` flags, bit `j` is set exactly when flag `len - 1 - j` is among them and set |
| GenerateJs.BoolMapBit | crates/blve_generator/src/generate_js.rs:191-199 | bit `j` of the bitmap is set exactly when flag `len - 1 - j` is set |
| GenerateJs.BoolMapFits | crates/blve_generator/src/generate_js.rs:191-199 | the bitmap has one bit per flag, and fits in 32 bits when no shift overflows |
| GenerateJs.BoolMapBelow | crates/blve_generator/src/generate_js.rs:193-197 | flags whose shifts stay below `n` give a bitmap below `2^n` |
| GenerateJs.IndentLines | crates/blve_generator/src/generate_js.rs:145-152 | each line gets the indent unless it is empty |
| GenerateJs.JoinSnoc | crates/blve_generator/src/generate_js.rs:153-155 | joining one more line adds the separator and the line |
| GenerateJs.EmittedStep | crates/blve_generator/src/generate_js.rs:145-156 | one pass emits the indented line and a newline unless it is the last line |
| GenerateJs.CreateIndent | crates/blve_generator/src/generate_js.rs:142-158 | the loop returns the text's lines, each indented unless empty, joined by `\n` |
| GenerateJs.IndentedLines | crates/blve_generator/src/generate_js.rs:142-158 | splitting the indented text at `\n` gives the indented lines back |
| GenerateJs.UnindentRestores | crates/blve_generator/src/generate_js.rs:142-158 | removing the indent from each piece gives the original lines: indentation loses nothing |
| GenerateJs.TopLevel | crates/blve_generator/src/generate_js.rs:165-183 | the ids outside every if-block, in order |
| GenerateJs.TopLevelComplete | crates/blve_generator/src/generate_js.rs:165-183 | every id outside the if-blocks is kept |
| GenerateJs.RefNames | crates/blve_generator/src/generate_js.rs:166 | one `<node>Ref` name per id |
| GenerateJs.QuotedIds | crates/blve_generator/src/generate_js.rs:176 | one quoted id name per id |
| GenerateJs.DeleteFlags | crates/blve_generator/src/generate_js.rs:184 | one delete flag per id |
| GenerateJs.DeleteOverflowIff | crates/blve_generator/src/generate_js.rs:181-186 | the bitmap of the top-level delete flags overflows a `u32` shift exactly when an id before the last 32 is to be deleted |
| GenerateJs.RefGetter | crates/blve_generator/src/generate_js.rs:160-189 | fails with the shift-overflow panic exactly when some top-level id other than the last 32 is to be deleted; otherwise a statement from `const [` to `);` |
| GenerateJs.RefGetterAligned | crates/blve_generator/src/generate_js.rs:160-189 | the reference names, the id list and the bitmap describe the same ids in the same order, with the flag of id `i` at bit `n - 1 - i` |
| GenerateJs.Listener | crates/blve_generator/src/generate_js.rs:204-209 | the listener statement is `addEvListener(<target>Ref, "<event>", ` followed by the printed handler and `);` |
| GenerateJs.CreateEventListener | crates/blve_generator/src/generate_js.rs:201-212 | one listener statement per action, in order |
| GenerateJs.ListenerHandlerReadsBack | crates/blve_generator/src/generate_js.rs:204-209 | the handler of a listener built from an attribute can be read back from the statement |
| GenerateJs.GenCreateAnchorStatements | crates/blve_generator/src/generate_js.rs:409-456 | the loop over the renderers returns the statements of the specification `AnchorStatements` |
| GenerateJs.AnchorStatementsCount | crates/blve_generator/src/generate_js.rs:415-453 | exactly the hand-rendered texts and the if-blocks with a distance above 1 in the given context contribute one statement each |
| GenerateJs.InsertionUsesDeclaredAnchor | crates/blve_generator/src/generate_js.rs:435-483 | a block gets an anchor statement exactly when its distance is above 1, and then it is inserted before that anchor; otherwise it is inserted before its target anchor or at the end |
| GenerateJs.InBlock | crates/blve_generator/src/generate_js.rs:491-494 | the ids inside a block, without the block's own element |
| GenerateJs.BlockBitmapWider | crates/blve_generator/src/generate_js.rs:491-522 | the render function's bitmap counts the ids inside the block plus those of the block's own element, so it is wider than the id list whenever the block's element itself needs an id |
| GenerateJs.RenderCalls | crates/blve_generator/src/generate_js.rs:535-540 | one render call per nested block |
| GenerateJs.IndentEach | crates/blve_generator/src/generate_js.rs:549-553 | each element-building line is indented |
| GenerateJs.RenderIfStep | crates/blve_generator/src/generate_js.rs:464-574 | each block contributes its render function, plus `<cond> && render<id>Elm()` when it is outside every block |
| GenerateJs.RenderIfSteps | crates/blve_generator/src/generate_js.rs:464 | the contributions of the blocks, one per block, in order |
| GenerateJs.CollectErr | crates/blve_generator/src/generate_js.rs:464-576 | the first failing block decides the outcome |
| GenerateJs.CollectAppend | crates/blve_generator/src/generate_js.rs:464-576 | collecting two runs of contributions one after the other is collecting them together |
| GenerateJs.GenRenderIfStatements | crates/blve_generator/src/generate_js.rs:458-577 | the loop over the blocks returns the specification `RenderIf` |
| GenerateJs.CollectCount | crates/blve_generator/src/generate_js.rs:464-576 | after `k` blocks the output holds `k` render functions plus one call per top-level block |
| GenerateJs.RenderIfCount | crates/blve_generator/src/generate_js.rs:458-577 | every block gets one render function, and only the blocks outside every block are rendered at start-up |
| GenerateJs.RenderFunctionFails | crates/blve_generator/src/generate_js.rs:465-554 | a render function aborts exactly when the block's node is not an element, the block's index is 64 or more, or its bitmap shift overflows |
| GenerateJs.QuotedPrefixReadsBack | crates/blve_generator/src/generate_js.rs:131 | a quoted path can be read back up to its closing quote |
| GenerateJs.FullCode | crates/blve_generator/src/generate_js.rs:117-139 | the module starts with the runtime import line, followed by the runtime path and its closing quote |
| GenerateJs.FullCodeReadsBackPath | crates/blve_generator/src/generate_js.rs:117-139 | the runtime path can be read back from the import line when it holds no quote |
| GenerateJs.FullCodeReadsBackExport | crates/blve_generator/src/generate_js.rs:118-133 | the export choice can be read back from one character: the first character after the path's closing quote and blank line is `c` exactly when the module is not exported |
| GenerateJs.FullCodeLayout | crates/blve_generator/src/generate_js.rs:117-139 | after the import line, the path and its quote come a blank line, the header with the opening of the component function (`Header(noExport) + RefsInit`), the indented statements joined by newlines, and the closing `\n}`, each at its stated position |
| GenerateJs.HeaderText | crates/blve_generator/src/generate_js.rs:118-134 | that header is `const App = ` when the module is not exported and `export default ` otherwise, followed by `function(elm) {` and the line `const refs = [null, false, 0, 0, 0];` |
| GenerateJs.FullCodeCloses | crates/blve_generator/src/generate_js.rs:133-136 | the code ends by closing the component function |
| GenerateJs.Defaults | crates/blve_generator/src/generate_js.rs:22-29 | the module is exported unless `no_export` is `Some(true)`; the runtime path defaults to `blve/dist/runtime` |
| GenerateJsUpdate.DepNumbersMember | crates/blve_generator/src/generate_js.rs:234-244 | exactly the numbers of the variables named as dependencies are collected |
| GenerateJsUpdate.UpdateMaskBit | crates/blve_generator/src/generate_js.rs:234-246 | a bit of the tested mask is set exactly when a dependency's number has it |
| GenerateJsUpdate.ParentIds | crates/blve_generator/src/generate_js.rs:225 | one parent id per if-block, in order |
| GenerateJsUpdate.ToggleSteps | crates/blve_generator/src/generate_js.rs:221-258 | one outcome per if-block, each the statement of that block |
| GenerateJsUpdate.RelationSteps | crates/blve_generator/src/generate_js.rs:260-391 | one outcome per relation, each the statements of that relation |
| GenerateJsUpdate.CtxGuardMeaning | crates/blve_generator/src/generate_js.rs:222-229 | the guard `!((refs[3] & n) ^ n)` holds exactly when `refs[3]` has the bit of every if-block whose parent is in the context |
| Masks.GuardMeansCovers | crates/blve_generator/src/generate_js.rs:224 | `(r & m) ^ m` is 0 exactly when every bit of `m` is set in `r` |
| GenerateJsUpdate.GenRenderingCond | crates/blve_generator/src/generate_js.rs:222-229 | the guard is empty outside if-blocks and otherwise built from the context number, aborting as `generate_ctx_num` does |
| GenerateJsUpdate.GenUpdateFuncStatement | crates/blve_generator/src/generate_js.rs:214-407 | the statements for the if-blocks and then the relations, indented and wrapped in `refs[0] = genUpdateFunc(...)`, or the first abort |
| GenerateJsUpdate.GenToggleStatements | crates/blve_generator/src/generate_js.rs:221-258 | one statement per if-block, in order |
| GenerateJsUpdate.GenRelationsStatements | crates/blve_generator/src/generate_js.rs:260-391 | the statements of the relations, in order |
| GenerateJsUpdate.GenToggleStatement | crates/blve_generator/src/generate_js.rs:221-257 | the statement of block `index`: renders it when its condition holds and its variables changed, otherwise removes it |
| GenerateJsUpdate.GenRelationStatements | crates/blve_generator/src/generate_js.rs:261-390 | one statement per reactive attribute, or one statement for an element's content or a text node |
| GenerateJsUpdate.GenContentStatement | crates/blve_generator/src/generate_js.rs:296-389 | the statement that rewrites an element's content or a text node, guarded by its variables' mask and, inside if-blocks, its context |
| GenerateJsUpdate.AttrStatementsErr | crates/blve_generator/src/generate_js.rs:264-294 | the first failing attribute decides the outcome |
| GenerateJsUpdate.CollectOk | crates/blve_generator/src/generate_js.rs:219-391 | collecting succeeds exactly when every contribution does |
| GenerateJsUpdate.CollectSingletons | crates/blve_generator/src/generate_js.rs:221-258 | single statements collect into a list with one entry per step, in order |
| GenerateJsUpdate.TogglesFirst | crates/blve_generator/src/generate_js.rs:221-260 | the update function starts with the statements of the if-blocks, block `i` at position `i` |
| GenerateJsUpdate.AttrStatementsFail | crates/blve_generator/src/generate_js.rs:264-294 | an attribute relation's statements abort exactly when it has an attribute, is inside if-blocks, and its context number overflows |
| GenerateJsUpdate.RelationStatementsFail | crates/blve_generator/src/generate_js.rs:261-390 | a relation's statements abort exactly when its context number overflows |
| GenerateJsUpdate.UpdateFailsIff | crates/blve_generator/src/generate_js.rs:214-407 | the update function cannot be built exactly when the statement of a nested if-block or of a relation inside if-blocks overflows its context number |
| GenerateJsUpdate.ToggleFlipsRenderBitOnlyForFirstTwo | crates/blve_generator/src/generate_js.rs:248-257 | the removal toggles `refs[3]` by `index + 1` while rendering sets bit `2^index`; the two agree only for the first two blocks |
| GenerateJsUpdate.ToggleThirdBlockExample | crates/blve_generator/src/generate_js.rs:248-257 | for the third block, render then remove leaves `refs[3]` at 7, not 0 |
| GenerateJsUpdate.ToggleFlipAmount | crates/blve_generator/src/generate_js.rs:248-257 | a successful toggle statement for block `index` ends with `refs[3] ^= <index + 1>) );` |
| GenerateJsUpdate.RenderSetAmount | crates/blve_generator/src/generate_js.rs:554-565 | a successful render function for block `index` contains the indented line that ORs `2^index` into `refs[3]` and `refs[4]` |
| GenerateJsUpdate.ToggleAndRenderAmounts | crates/blve_generator/src/generate_js.rs:248-257 | of the generated statements: the toggle flips `index + 1` and the render function ORs in `2^index`, and these amounts agree exactly for the first two blocks; for the third the two leave 7 |
| GenerateJsUpdate.Pow2AboveSucc | crates/blve_generator/src/generate_js.rs:554-565 | from the third block on, the render bit `2^index` is larger than the toggle `index + 1` |
| GenerateJsEntry.CollectIdsIn | crates/blve_generator/src/generate_js.rs:84-88 | the loop collects the nodes whose ids are recorded in exactly the given context |
| GenerateJsEntry.VariablesToDeclare | crates/blve_generator/src/generate_js.rs:75-89 | the loop collects each block's id and the nodes directly inside each block |
| GenerateJsEntry.IdsInMember | crates/blve_generator/src/generate_js.rs:84-88 | every node recorded in the context is collected |
| GenerateJsEntry.InBlockMember | crates/blve_generator/src/generate_js.rs:491-494 | the ids a render function looks up are recorded in the block's context |
| GenerateJsEntry.ToDeclareGrows | crates/blve_generator/src/generate_js.rs:77-89 | what an earlier block adds stays declared |
| GenerateJsEntry.DeclaredCoversAssigned | crates/blve_generator/src/generate_js.rs:75-101 | every reference a render function assigns is declared with `let` |
| GenerateJsEntry.DeclarationIffBlocks | crates/blve_generator/src/generate_js.rs:75-101 | there is something to declare exactly when there is an if-block, so the emptiness test inside the branch never fails |
| GenerateJsEntry.Enumerate | crates/blve_generator/src/generate_js.rs:95 | the `HashSet`'s names are listed once each, in some order |
| GenerateJsEntry.RefList | crates/blve_generator/src/generate_js.rs:95 | one `<name>Ref` per declared name |
| GenerateJsEntry.Listeners | crates/blve_generator/src/generate_js.rs:71 | one listener statement per action, in order |
| GenerateJsEntry.GenerateCode | crates/blve_generator/src/generate_js.rs:60-114 | everything after the walk assembles the component as `Assemble` specifies, declaring exactly the names `DeclaredIn` gives, once each |
| GenerateJsEntry.GenerateJsFromBlocks | crates/blve_generator/src/generate_js.rs:17-115 | the generator returns `Generated`: the walk's error, or the module text and the style block; the `let` names are exactly the blocks' ids and the nodes directly inside them, each declared once |
| Masks.Low32 | npm-pkg/src/runtime/index.ts:13 | the low 32 bits of a number, below `2^32`, as JavaScript's bitwise or keeps them |
| Masks.LowBitsFit | npm-pkg/src/runtime/index.ts:13 | a number that fits in 32 bits is kept as it is |
| Masks.LowBitsOfHighPow2 | npm-pkg/src/runtime/index.ts:80 | `2^i` with `i >= 32` has no low 32 bits |
| Runtime.MaskFits | npm-pkg/src/runtime/index.ts:13 | ORing a variable's number into a 32-bit mask keeps it 32 bits wide |
| Runtime.WordIsPow2 | npm-pkg/src/runtime/index.ts:13 | `2^32` is the range of a 32-bit mask |
| Runtime.SymbolRef.constructor | npm-pkg/src/runtime/index.ts:1 | the shared array `[mask, scheduled, update]` starts with no change, no update scheduled and no update function |
| Runtime.SymbolRef.Register | npm-pkg/src/runtime/index.ts:1-15 | storing the update function into the third slot of `SymbolRefInfo`, the one the setter schedules, changes nothing else |
| Runtime.SymbolRef.Mark | npm-pkg/src/runtime/index.ts:13-17 | ORs the variable's number into the mask; queues a microtask and sets the flag only when no update is scheduled yet, so one update is queued per batch |
| Runtime.SymbolRef.RunUpdate | npm-pkg/src/runtime/index.ts:25-33 | runs the update exactly when one is scheduled, seeing the accumulated mask, and then clears the mask and the flag; otherwise changes nothing |
| Runtime.SymbolRef.RunMicrotask | npm-pkg/src/runtime/index.ts:15 | the first queued microtask runs the update when a function was registered at queueing time; otherwise the flag stays raised |
| Runtime.ValueObj.constructor | npm-pkg/src/runtime/index.ts:4-8 | a cell holds its value, its variable's number and the shared array |
| Runtime.ValueObj.SetV | npm-pkg/src/runtime/index.ts:10-18 | assigning the current value changes nothing; otherwise the value is stored and the shared array is marked as `Mark` states |
| Runtime.ChangesAreBatched | npm-pkg/src/runtime/index.ts:10-33 | two cells changed one after the other before the microtask runs cause one update, which sees both variables' bits, and leave the array cleared |
| Runtime.EscapeHtml | npm-pkg/src/runtime/index.ts:35-47 | the escaped text is at least as long and holds no raw `<`, `>`, `"` or `'` |
| Runtime.EscapeChar | npm-pkg/src/runtime/index.ts:35-47 | a character is kept as itself exactly when it is none of `& < > " '`; each of those becomes an entity from `&` to `;` of at least four characters, and no replacement holds a raw `< > " '` |
| Runtime.UnescapeChar | npm-pkg/src/runtime/index.ts:36-42 | each entity reads back as the character it replaced |
| Runtime.EscapeRoundTrip | npm-pkg/src/runtime/index.ts:35-47 | reading the entities back gives the text: escaping loses nothing |
| Runtime.StrippedIds | npm-pkg/src/runtime/index.ts:77-83 | one strip decision per looked-up id, made by the test of `getElmRefs` |
| Runtime.AndPow2 | npm-pkg/src/runtime/index.ts:80 | `2^i & x` is non-zero exactly when bit `i` of `x` is set |
| Runtime.StripsIdIff | npm-pkg/src/runtime/index.ts:77-83 | the id at position `i` is removed exactly when `i < 32` and bit `i` of the bitmap is set: the runtime reads least significant bit first |
| Runtime.FlagsReadReversed | npm-pkg/src/runtime/index.ts:80 | with the generator's most-significant-first bitmap, the id at position `i` is stripped exactly when the flag of position `len - 1 - i` is set: the two ends disagree on the order |

## Left out

- The script analysis (`analyze_js`), the markup parser and `Node::new_from_dom` are not part of this model. The generator receives their results as input.
- `append_v_to_vars_in_html` is not part of this model. It is a function parameter (`Markup.InHtml`).
- The id generators (`UUID_GENERATOR`, `gen_nanoid`, `nanoid!`) are not part of this model. They are an oracle `freshId` with a count of ids drawn.
- The following are not part of this model: `Node::to_string`, `sort_if_blocks`, `TextNodeRendererGroup::new`, `sort_by_rendering_order`, `generate_element_on_js` and `IfBlockInfo::find_children`. They are function parameters of `GenerateJsEntry.Oracles`.
- `Element::remove_child` is not part of this model. `HtmlTree.RemoveChild` implements the behaviour its callers rely on: the detached node, the distance to the next element sibling and the index just past it.
- `IfBlockInfo::generate_ctx_num` is not part of this model. It is taken to be the same loop as the two in `transform_targets.rs`, testing `parent_id`.
- `println!` output is left out, since it has no effect on the result.
- The runtime's DOM functions are left out: `replaceText`, `replaceAttr`, `addEvListener`, `reactiveValue`, and the element lookup of `getElmRefs`. Only the id test of `getElmRefs` is modelled.
- Promise scheduling is modelled as a list of pending microtasks. JavaScript's `===` is modelled as Dafny equality.
- Runtime.SymbolRef.Mark: the mask is a 32-bit pattern read as unsigned. JavaScript's `|` yields a signed 32-bit number, so a bit-31 mask would be negative there.
- `npm-pkgs/blve/src/runtime/router.ts` and `crates/blve_compiler/src/lib.rs` are not part of this model. They are callers of the core.
- `HashSet` iteration order is arbitrary. `GenerateJsEntry.Enumerate` picks some order, and the results are stated for every order.
- UtilsText.ReplaceTextWithReactiveValue: the loop never ends on a `${` without a later `}`. The method requires the text to be `Closed`, and `UtilsText.UnclosedLoopsForever` states the non-termination.
- Markup.ReplaceTextWithReactiveValue: requires the text to be `Closed`. On an unclosed `${` the source repeats the same pass and aborts when its `u32` pass count overflows, after 2^32 - 1 passes; the model does not capture that abort. Its count is a `nat`; the ensures `3 * count <= |code|` shows the `u32` cannot overflow on a `Closed` text shorter than 3 * 2^32 characters.
- TransformTargets.GenerateCtxNum: returns the whole `u64` context number, which is what `as usize` keeps on a 64-bit target. The compiler is also built for wasm32 through `wasm_bindgen`; there `usize` is 32 bits wide and the cast keeps only the low 32 bits. The model does not capture that truncation.
- All text is read as ASCII. `Strings.IsAlnum` and `Strings.IsWhitespace` know only ASCII letters, digits and white space, and a position in the text is a character index. The lines below name what each member loses by this.
- UtilsText.WordExistsInText: Rust's `char::is_alphanumeric` also accepts non-ASCII letters and digits. A variable named `値` is a word of `${値}` in the source and gets its `.v`; in the model it is not a word, and nothing is appended.
- TransformInfo.WordIsOneWord: the same difference. A handler name made of non-ASCII letters is a function reference in the source and a statement in the model.
- TransformInfo.New: `trim()` also strips Unicode white space such as U+3000. The handler `f()` followed by U+3000 ends with `)` once trimmed, so the source keeps it verbatim as a statement. The model's `Trim` keeps that character, so the handler goes through `append_v_to_vars` instead, and any variable named in it gets `.v`.
- UtilsScript.AddStringsToScript: the source slices at byte offsets, and a slice that is not on a character boundary aborts. The model slices at character indices, which equal byte offsets only for ASCII text, and it does not capture that abort.
- UtilsScript.SearchJson: the span ends it reads are byte offsets; the model uses them as character indices, which is the same only for ASCII text.
- Json.Number: holds a natural number. The source's `as_u64().unwrap()` on a span (`utils.rs:25`, `119` and `123`) aborts on a negative or fractional number; the model does not capture that abort.
- Release-build arithmetic is not modelled: every overflow is the abort that overflow checks produce. A wrapping `2u64.pow`, a masked `<<` and a wrapping `u32` counter are left out.
- Markup.Transformer.CheckHtmlElms: after an error the source leaves its lists partly updated. The model states the lists only when the walk succeeds.
- Markup.Transformer.CheckAttribute: the same holds after an error.
- GenerateJsEntry.GenerateJsFromBlocks: the same holds after an error.
- LegacyMarkup.CheckHtmlElms: requires the texts of the tree to be `Closed`, for the same non-termination.

## Behaviours of the source pinned by lemmas

Each item below is something the source does that a reader might not expect, stated with the lemma that proves it of the model.

- **Toggling if-blocks.** The update function removes block `index` with `refs[3] ^= index + 1` (`generate_js.rs:256`), while its render function sets `refs[3] |= 2^index` (`generate_js.rs:554-565`). The two agree only for the first two blocks. `GenerateJsUpdate.ToggleAndRenderAmounts` states this of the generated statements themselves, using `GenerateJsUpdate.ToggleFlipAmount`, `GenerateJsUpdate.RenderSetAmount`, `GenerateJsUpdate.ToggleFlipsRenderBitOnlyForFirstTwo` and `GenerateJsUpdate.ToggleThirdBlockExample`.
- **Bit order of the id bitmap.** `gen_binary_map_from_bool` builds the bitmap most significant bit first. `getElmRefs` reads it least significant bit first (`Runtime.FlagsReadReversed`).
- **Render-function bitmap.** Inside a render function the bitmap is built from all ids in the block's context, including the block's own element. The id list leaves that element out (`GenerateJs.BlockBitmapWider`).
- **Layout of the shared array.** The generated code initialises it as `[null, false, 0, 0, 0]` (`GenerateJs.FullCodeLayout`, `GenerateJs.HeaderText`), stores the update function in `[0]` and tests the mask in `[2]`. The runtime in `npm-pkg` uses `[0]` for the mask, `[1]` for the flag and `[2]` for the update function. `Runtime` follows the runtime file; the generated statements follow the generator.
- **Relation lookup for `:name`.** The relation is looked up by the element's `id` but created under its uuid (`MarkupProperties.ReactiveAttrFallback`).
- **Rewriting inside words.** `append_v_to_vars` tests for a variable as a whole word but then replaces every occurrence of its name, inside longer words and known dependencies too: with `ab` already a dependency, `a + ab` becomes `a.v + a.vb` (`UtilsText.AppendVRewritesInsideWords`).
- **Redundant emptiness test.** The emptiness test on the names to declare never fails once there is an if-block (`GenerateJsEntry.DeclarationIffBlocks`).
