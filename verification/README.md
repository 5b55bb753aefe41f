# Help-file document layer of tsumekusa / jsdocref

This project models, in Dafny, the core of the help-file document layer that
tsumekusa and its JSDoc front end (tsumekusaJsdoc, with the older jsdocref
generation) use to turn JSDoc doclets into Vim help files. It proves
properties of that model. Every operation is a pure function over immutable
datatypes, and a mutating JavaScript method becomes a function that returns
the new value (or a `Result` when the method can throw).

The modules follow the source files:

- `Wrappers`, `JsStrings`, `Doclets`: `Option`/`Result`, the JavaScript
  string operations the code relies on (white space as `trim` sees it,
  `join`, `split`, `toLowerCase` on keywords, decimal rendering), and the
  doclet fields that are read.
- `ContentArrays`, `Paragraphs`, `DefinitionLists`: the ordered content
  collections (`ContentArray.js`, `Paragraph.js`, jsdocref's
  `DefinitionList.js`), including JavaScript truthiness where the code tests
  it.
- `ContainerTrees`, `VimHelpContainers`, `LegacyVimHelpContainers`: a
  container tree with depth, sibling index and ancestry, plus the two
  generations of the vim-help container publisher (section labels such as
  `1.`, `1.1` and `1.1.1`, separators by depth, header, footer, and how the
  published parts are joined).
- `JsNumbers`: how JavaScript's `Number` rounds an exact decimal value to
  the nearest IEEE 754 double (round half to even, subnormals, `Infinity`)
  and how `String.fromCharCode` applies `ToUint16` to it.
- `EntityDecoding`, `TagTrees`, `BlockConversion`, `InlineTags`, `Dom`:
  `DocHelper.js`. This covers entity decoding, the enabled-tag test, the
  parser callbacks as a state machine over an event sequence that builds the
  `TreeNode` tree, the conversion of tree nodes to blocks, and the
  `{@tag content}` scanner with tag dispatch and `#link` resolution.
- `Codes`, `Links`, `UnknownInlineTags`, `Documents`, `ReferenceHelpers`:
  the small node types and the naming rules for reference IDs, file names
  and directories.
- `DocElements`, `ClassDocuments`, `NamespaceDocuments`, `MemberDefinitions`,
  `ParametersDefinitions`, `FunctionDigests`: the JSDoc document builders.
  The collaborators whose source is not modelled are gathered in one
  `Helpers` record: the HTML parser, the global flags, `NO_DESCRIPTION`,
  `decorateParamName`, and the `InlineCode` and `Type` publishers.

## Model

| member | source | states |
|---|---|---|
| ContentArrays.Empty | tsumekusa/contents/ContentArray.js:11-13 | a new array has count 0 and no children |
| ContentArrays.CountAndChildren | tsumekusa/contents/ContentArray.js:28-59 | `hasChildren` holds exactly when `getCount` is non-zero, and `getChildAt(i)` yields a child exactly for `0 <= i < getCount()` |
| ContentArrays.SpliceStart | tsumekusa/contents/ContentArray.js:80-81 | the splice start is within `0 .. count` and equals the index whenever the index is already in that range |
| ContentArrays.AddChildAt | tsumekusa/contents/ContentArray.js:80-83 | the count grows by one, the content sits at the splice start, the children before it are unchanged and those after it are shifted right by one |
| ContentArrays.AddChild | tsumekusa/contents/ContentArray.js:67-70 | the content is appended as the new last child and all earlier children are unchanged |
| ContentArrays.IndexOf | tsumekusa/contents/ContentArray.js:93 | the result is -1 exactly when the value is absent, otherwise the index of its first occurrence |
| ContentArrays.RemoveChildAt | tsumekusa/contents/ContentArray.js:107-115 | a child is removed and returned exactly when the index is in range and the slot is truthy; the remaining children keep their order; otherwise the result is `null` and the array is unchanged |
| ContentArrays.RemoveFirstIsSplice | tsumekusa/contents/ContentArray.js:91-95 | splicing at the `indexOf` position equals the reference "remove the first occurrence" definition |
| ContentArrays.RemoveChild | tsumekusa/contents/ContentArray.js:91-97 | an absent child gives `null` and no change; a present, truthy child has only its first occurrence removed and is returned; a present, falsy child gives `null` |
| ContentArrays.RemoveChildTakesOneCopy | tsumekusa/contents/ContentArray.js:91-97 | a successful removal takes exactly one copy of the child out (as multisets) |
| ContentArrays.AddThenRemoveAt | tsumekusa/contents/ContentArray.js:80-115 | removing at the index where a truthy child was just inserted restores the array and returns that child |
| ContentArrays.FalsyChildStays | tsumekusa/contents/ContentArray.js:67-115 | an appended falsy child (such as `''`) can never be removed by value |
| Paragraphs.AddInlineContent | tsumekusa/dom/Paragraph.js:76-79 | the content is appended at the end |
| Paragraphs.AddInlineContents | tsumekusa/dom/Paragraph.js:62-67 | the contents are appended in order |
| Paragraphs.NewParagraph | tsumekusa/dom/Paragraph.js:19-27 | all arguments are appended in order when the first is truthy; otherwise the paragraph is empty |
| Paragraphs.AddInlineContentAt | tsumekusa/dom/Paragraph.js:89-92 | the count grows by one, and the content goes in at the start `splice` computes from the index (counted from the end when negative, clamped to the ends), with the contents before it kept and those after it shifted |
| Paragraphs.RemoveInlineContent | tsumekusa/dom/Paragraph.js:102-104 | the array's `removeChild`: the first occurrence of a present truthy content goes and is returned; otherwise `null` and no change |
| Paragraphs.RemoveInlineContentAt | tsumekusa/dom/Paragraph.js:114-116 | the array's `removeChildAt`: a truthy slot in range is removed and returned; otherwise `null` and no change |
| Paragraphs.AddInlineContentsConcat | tsumekusa/dom/Paragraph.js:62-67 | adding `xs` and then `ys` equals adding `xs + ys`, one content at a time |
| DefinitionLists.TypeOr | jsdocref/publishing/DefinitionList.js:24-86 | `opt_type || fallback`: a given ORDERED or UNORDERED type wins; an absent type or NO_MARKER (0, falsy) gives the fallback |
| DefinitionLists.AsSentence | jsdocref/publishing/DefinitionList.js:157-159 | a sentence argument is kept as it is, anything else is wrapped in a new sentence |
| DefinitionLists.NewDefinitionList | jsdocref/publishing/DefinitionList.js:21-25 | a new list is empty, and its type is the given one or NO_MARKER when the given one is absent or falsy |
| DefinitionLists.AppendDefinition | jsdocref/publishing/DefinitionList.js:83-161 | exactly one definition is added at the end, with its caption and content wrapped as sentences and its type `opt_type || list type`; earlier definitions and the list type are unchanged; identities stay distinct |
| DefinitionLists.RemoveDefinition | jsdocref/publishing/DefinitionList.js:98-104 | an absent definition gives `null` and no change; a present one has its first occurrence spliced out, and the result is the one-element array `[definition]`, not the definition |
| DefinitionLists.AppendThenLookup | jsdocref/publishing/DefinitionList.js:83-146 | after an append, the new index yields the appended caption and content, other indices are as before, and one past the end is `undefined` |
| DefinitionLists.NoMarkerIsFalsy | jsdocref/publishing/DefinitionList.js:35-86 | asking for NO_MARKER on an ORDERED list gives an ORDERED definition |
| DefinitionLists.AppendThenRemove | jsdocref/publishing/DefinitionList.js:83-104 | removing the definition just appended restores the previous definitions and returns `[definition]` |
| ContainerTrees.RootPosition | tsumekusa/publishing/vimhelp/VimHelpContainerPublisher.js:60-63 | the document sits at depth 0 and has no ancestors |
| ContainerTrees.ChildPosition | tsumekusa/publishing/vimhelp/VimHelpContainerPublisher.js:60-66 | a sub-container is one level deeper, has its own sibling index, and its ancestors are its parent's ancestors followed by the parent |
| ContainerTrees.FollowShape | tsumekusa/publishing/vimhelp/VimHelpContainerPublisher.js:60-66 | the container at a path below the document has depth equal to the path length, the path's last index as its index, and the document plus the path prefix as ancestors |
| ContainerTrees.OneBased | tsumekusa/publishing/vimhelp/VimHelpContainerPublisher.js:65-67 | every index is rendered as its decimal value plus one |
| ContainerTrees.DottedIndexShape | tsumekusa/publishing/vimhelp/VimHelpContainerPublisher.js:63-69 | two or more levels below the document, the dotted index contains a `.` and ends with a digit, so it has no trailing dot |
| ContainerTrees.DottedIndexIsPathLabel | tsumekusa/publishing/vimhelp/VimHelpContainerPublisher.js:63-69 | below the top level, the dotted index equals the reference path label: the 1-based path indices joined with `.`, with the document dropped |
| ContainerTrees.DottedIndexOfAncestry | tsumekusa/publishing/vimhelp/VimHelpContainerPublisher.js:64-69 | a container whose ancestors are the document followed by a path prefix gets that path's label |
| ContainerTrees.DottedIndexParses | tsumekusa/publishing/vimhelp/VimHelpContainerPublisher.js:64-69 | splitting the dotted index on `.` gives back, in order, the 1-based number of every level below the document |
| VimHelpContainers.CreateIndex | tsumekusa/publishing/vimhelp/VimHelpContainerPublisher.js:59-74 | at depth 0 or 1 the label ends with `.`; deeper it contains a `.` and ends with a digit |
| VimHelpContainers.CreateIndexIsPathLabel | tsumekusa/publishing/vimhelp/VimHelpContainerPublisher.js:59-74 | every container below the document is labelled with its path label: `(index + 1).` at the top level and the dotted number deeper down |
| VimHelpContainers.SampleDocumentLabels | tsumekusa/publishing/vimhelp/test_VimHelpDocumentPublisher.js:99-146 | in the sample tree doc → {c1 → c2 → c3, c4} the labels are `1.`, `1.1`, `1.1.1` and `2.` |
| VimHelpContainers.GetSubContainerSeparator | tsumekusa/publishing/vimhelp/VimHelpContainerPublisher.js:32-88 | a rule exists exactly at depths 0 and 1; it is a newline, `=` (depth 0) or `-` (depth 1) repeated to the display width, and a newline; deeper there is no rule (`null`) |
| VimHelpContainers.SampleDocumentSeparators | tsumekusa/publishing/vimhelp/test_VimHelpDocumentPublisher.js:98-145 | in the sample tree, `=` rules separate the document's sections, a `-` rule separates container1's, and container2's have none |
| VimHelpContainers.PublishHeader | tsumekusa/publishing/vimhelp/VimHelpContainerPublisher.js:36-44 | the header line starts with the index, a space and the caption, ends with the published tag and a newline, and is padded to the display width |
| VimHelpContainers.GetIndentWidthInternal | tsumekusa/publishing/vimhelp/VimHelpContainerPublisher.js:48-50 | the indent is 2 exactly when the depth is greater than 2, and 0 otherwise |
| VimHelpContainers.SampleHeader | tsumekusa/publishing/vimhelp/test_VimHelpDocumentPublisher.js:99 | container1's header is 78 columns: it starts with `1. container1` and ends with `*container1*` |
| LegacyVimHelpContainers.CreateIndex | jsdocref/publishing/VimHelpContainerPublisher.js:62-78 | at depth 0 or 1 the label is the depth followed by `.`; deeper it contains a `.` and ends with a digit |
| LegacyVimHelpContainers.TopLevelSectionsAllOne | jsdocref/publishing/VimHelpContainerPublisher.js:75-77 | every top-level section is labelled `1.`, whatever its sibling position |
| LegacyVimHelpContainers.CreateIndexIsPathLabelBelowTop | jsdocref/publishing/VimHelpContainerPublisher.js:67-74 | below the top level the label is the dotted path label |
| LegacyVimHelpContainers.CreateSubContentSeparator | jsdocref/publishing/VimHelpContainerPublisher.js:25-93 | at depth 0 and 1 the separator is a `=` or `-` rule as wide as the text followed by a newline; deeper it is just the newline |
| LegacyVimHelpContainers.CreateHeader | jsdocref/publishing/VimHelpContainerPublisher.js:34-42 | the header starts with the index, a space and the caption, ends with the published tag, and is at least as wide as the text |
| LegacyVimHelpContainers.CreateFooter | jsdocref/publishing/VimHelpContainerPublisher.js:51-53 | the footer is always `null` |
| LegacyVimHelpContainers.SeparatorThenJoin | jsdocref/publishing/VimHelpContainerPublisher.js:116-118 | the separator followed by the pieces joined with it equals the reference "each piece preceded by the separator" |
| LegacyVimHelpContainers.PrefixEachLength | jsdocref/publishing/VimHelpContainerPublisher.js:116-118 | `k` pieces produce exactly `k` separators |
| LegacyVimHelpContainers.CreateSubContents | jsdocref/publishing/VimHelpContainerPublisher.js:112-122 | the result is `null` exactly when there are no sub contents; otherwise every piece is preceded by the separator |
| LegacyVimHelpContainers.Publish | jsdocref/publishing/VimHelpContainerPublisher.js:140-163 | the output is the header, a newline and the top content (or `''`); when there are sub-containers, a newline and every published sub-container preceded by the depth's separator follow; nothing comes from the footer |
| LegacyVimHelpContainers.PublishSubContents | jsdocref/publishing/VimHelpContainerPublisher.js:131-136 | there is one published string per sub-container |
| LegacyVimHelpContainers.JoinWithNewlines | jsdocref/publishing/VimHelpContainerPublisher.js:140-162 | joining the present slots with `\n` puts exactly one newline between header, top content and sub contents |
| Codes.StripTrailingNewlines | jsdocref/publishing/Code.js:20 | the result is a prefix of the text, everything cut off is a newline, and the result does not end with a newline |
| Codes.NormaliseTrailingNewlines | jsdocref/publishing/Code.js:20 | text without a trailing newline is unchanged; text with one keeps the same body and ends with exactly one newline, never two |
| Codes.NormaliseIdempotent | jsdocref/publishing/Code.js:20 | normalising twice equals normalising once |
| Codes.NewCode | jsdocref/publishing/Code.js:18-79 | `getCode` returns the normalised code; `getLanguage` returns `opt_lang` when it is truthy and `null` otherwise |
| Codes.IsBreakable | jsdocref/publishing/Code.js:59-61 | code is never breakable |
| Codes.DefaultLanguageIsNull | jsdocref/publishing/Code.js:21-55 | without a language (or with `''`) the language is `null`, not the prototype's `javascript` |
| Links.NewLink | tsumekusa/contents/Link.js:18-49 | `getTargetReferenceId` returns the ID given at construction |
| Links.SetTargetReferenceId | tsumekusa/contents/Link.js:37-40 | the stored ID is overwritten with the new one |
| Links.IsBreakable | tsumekusa/contents/Link.js:53-55 | a link is never breakable |
| Links.PublishLink | tsumekusa/publishing/test/test_LinkPublisher.js:14-17 | the published link is the target ID between two vertical bars |
| Links.LinkRoundTrips | tsumekusa/contents/Link.js:18-49 | the last target set wins, and the published text gives the target back |
| Links.PublishFooBar | tsumekusa/publishing/test/test_LinkPublisher.js:15-17 | a link to `foo.bar` publishes as `\|foo.bar\|` |
| UnknownInlineTags.NewUnknownInlineTag | lib/dom/UnknownInlineTag.js:28-41 | type, content and current doclet are stored as given, and the tag is flagged unknown |
| UnknownInlineTags.Warning | lib/dom/UnknownInlineTag.js:77-78 | the warning starts with the fixed prefix and names the type and then the content, each between double quotes |
| UnknownInlineTags.Publish | lib/dom/UnknownInlineTag.js:76-80 | publishing yields the content unchanged, so the name, `@` and braces are dropped, together with the warning instead of a failure |
| Documents.NewDocument | tsumekusa/publishing/Document.js:20-41 | the version is stored exactly as passed; the date is the given one, or the supplied "now" when absent |
| Documents.GetVersion | tsumekusa/publishing/Document.js:48-50 | a truthy version is returned as it is; a missing or empty one gives `n/a` |
| Documents.VersionDefaults | tsumekusa/publishing/Document.js:22-50 | `''` and a missing version both read back as `n/a`, and any other version reads back unchanged |
| ReferenceHelpers.GetReferenceId | tsumekusaJsdoc/references/ReferenceHelper.js:28-30 | the ID starts with the long name; a truthy modifier follows after a `-`; without a truthy modifier the ID is the long name itself, and only then |
| ReferenceHelpers.ReferenceIdSplits | tsumekusaJsdoc/references/ReferenceHelper.js:28-30 | for a long name without `-`, splitting the ID at its first `-` gives back the long name and the modifier |
| ReferenceHelpers.ReferenceIdsDistinct | tsumekusaJsdoc/references/ReferenceHelper.js:28-30 | two different truthy modifiers give two different IDs for the same symbol |
| ReferenceHelpers.GetFileName | tsumekusaJsdoc/references/ReferenceHelper.js:38-40 | the file name is the long name with every `.` turned into `/`, and no `.` left, followed by `.tsumekusa` |
| ReferenceHelpers.FileNameRoundTrip | tsumekusaJsdoc/references/ReferenceHelper.js:38-40 | when the long name has no `/`, dropping the extension and turning `/` back into `.` gives the long name |
| ReferenceHelpers.FileNamesCollide | tsumekusaJsdoc/references/ReferenceHelper.js:38-40 | `a.b` and `a/b` get the same file, so the mapping is not injective once `/` appears in a long name |
| ReferenceHelpers.Dirname | tsumekusaJsdoc/references/ReferenceHelper.js:49 | the directory of an empty path, or of a relative path without `/`, is `.` |
| ReferenceHelpers.DirnameOfJoin | tsumekusaJsdoc/references/ReferenceHelper.js:49 | the directory of `dir/base` is `dir`, for a base name without `/` and a directory that is neither empty nor `/` |
| ReferenceHelpers.GetDirectoryPath | tsumekusaJsdoc/references/ReferenceHelper.js:48-50 | a top-level symbol, whose long name has no `.` or `/`, lives in `.` |
| ReferenceHelpers.DirectoryOfMember | tsumekusaJsdoc/references/ReferenceHelper.js:38-50 | for `parent.name` the directory is the parent path with `/` for `.`, and directory + `/` + name + extension is the file name |
| JsNumbers.RoundHalfEven | lib/dom/DocHelper.js:107 | the result is within one half of `n / d`, and an exact half goes to the even neighbour |
| JsNumbers.ScaleDown | lib/dom/DocHelper.js:107 | the numerator is doubled into the range from the bound to twice the bound, unless the subnormal scale 2^-1074 is reached first, and the result is the numerator times 2 to the number of doublings |
| JsNumbers.ScaleDownAt | lib/dom/DocHelper.js:107 | the number of doublings is the first one at which the numerator reaches the bound |
| JsNumbers.ScaleUp | lib/dom/DocHelper.js:107 | the denominator is doubled until the quotient drops below 2^53 (and no further), unless the exponent passes the largest finite one |
| JsNumbers.RoundBelow | lib/dom/DocHelper.js:107 | a value below 2^53 becomes a finite double within half a unit in the last place |
| JsNumbers.RoundAbove | lib/dom/DocHelper.js:107 | a finite result for a value of 2^53 or more is within half a unit in the last place |
| JsNumbers.NearestDouble | lib/dom/DocHelper.js:107 | values below 2^53 are finite; every finite result is within half a unit in the last place of the exact value, for negative and positive exponents |
| JsNumbers.ToUint16 | lib/dom/DocHelper.js:109 | the code unit is below 2^16, and `Infinity` gives 0 |
| JsNumbers.HalveTimes2Pow | lib/dom/DocHelper.js:109 | truncating a double with a negative exponent recovers an integer that was scaled exactly |
| JsNumbers.ExactInteger | lib/dom/DocHelper.js:107-109 | every integer up to 2^53 is read exactly, and `ToUint16` gives it modulo 2^16 |
| JsNumbers.Overflow | lib/dom/DocHelper.js:107 | values of 2^1024 and more are read as `Infinity` |
| JsNumbers.NearlySixtySix | lib/dom/DocHelper.js:107-109 | 66 - 10^-17 is read as the double 66, whose code unit is 66 |
| EntityDecoding.DigitsNumber | lib/dom/DocHelper.js:107 | `Number('0' + digits)` for a run of decimal digits is exactly the integer the digits spell |
| EntityDecoding.DecimalFraction | lib/dom/DocHelper.js:107 | digits, a point and more digits denote the integer spelt by all the digits over ten to the number of digits after the point |
| EntityDecoding.HexNumber | lib/dom/DocHelper.js:106-107 | after the `0` prefix, `x41` is the hexadecimal number 65 |
| EntityDecoding.FromCharCode | lib/dom/DocHelper.js:109 | the character has exactly the given code unit, except for lone surrogates |
| EntityDecoding.DecodeEntity | lib/dom/DocHelper.js:94-113 | `amp`, `lt`, `gt` and `quot` become `&`, `<`, `>` and `"`; `#` followed by a number becomes the character whose code unit is `ToUint16` of the double nearest to the number's exact value; every other entity becomes `undefined` |
| EntityDecoding.DecodeEntities | lib/dom/DocHelper.js:94-113 | none on the function itself; the replacement is stated by `DecodeWithoutAmpersand`, `DecodeEntityReference` and `DecodeEscape` |
| EntityDecoding.DecodeWithoutAmpersand | lib/dom/DocHelper.js:94 | text without `&` comes through decoding unchanged |
| EntityDecoding.DecodeEntityReference | lib/dom/DocHelper.js:94 | `&e;` followed by more text decodes to the entity's replacement followed by the decoded rest, for every non-empty `e` without `;` |
| EntityDecoding.DecodeEscape | lib/dom/DocHelper.js:94-103 | decoding undoes the reference escaping of `&`, `<`, `>` and `"`, for every text |
| EntityDecoding.DecimalEntity | lib/dom/DocHelper.js:105-110 | `#N`, with `N` at most 2^53 written in decimal, is read exactly and names the character with code unit `N` modulo 2^16 |
| EntityDecoding.HugeDecimalEntity | lib/dom/DocHelper.js:107-109 | `#N` with `N` of 2^1024 or more is read as `Infinity`, which names code unit 0 |
| EntityDecoding.NearlySixtySixEntity | lib/dom/DocHelper.js:107-109 | `#65.` followed by seventeen nines names `B`: the value rounds to the double 66 rather than being cut to 65 |
| EntityDecoding.NearlySixtySixNumber | lib/dom/DocHelper.js:107 | `65.` followed by seventeen nines is the exact value 6599999999999999999 / 10^17 |
| EntityDecoding.DecimalCharacterReference | lib/dom/DocHelper.js:94-113 | `&#N;` with `N` at most 2^53, followed by more text, decodes to the character with code unit `N` modulo 2^16 followed by the decoded rest |
| EntityDecoding.DecimalEntityExample | lib/dom/DocHelper.js:105-110 | `&#65;` decodes to `A` |
| EntityDecoding.HexEntityExample | lib/dom/DocHelper.js:106-110 | `&#x41;` decodes to `A` as well, because the `0` prefix turns `x41` into a hexadecimal number |
| EntityDecoding.UnknownEntityExample | lib/dom/DocHelper.js:104-113 | an unknown entity such as `&nbsp;` becomes the text `undefined` |
| EntityDecoding.EmptyEntityExample | lib/dom/DocHelper.js:94 | `&;` is not an entity and is left as it is |
| EntityDecoding.NonNumericReference | lib/dom/DocHelper.js:105-113 | `&#z;` is not a number and becomes `undefined` |
| TagTrees.EnabledIgnoresCaseAndSuffix | lib/dom/DocHelper.js:60 | the enabled-tag test ignores ASCII case, and an enabled name stays enabled whatever follows it, because the regular expression is a prefix match |
| TagTrees.EnabledExamples | lib/dom/DocHelper.js:60 | `UL`, `Pre` and `code` are enabled, and so are `br` and `body` because they start with `b` |
| TagTrees.DisabledExamples | lib/dom/DocHelper.js:60 | `p`, `div`, `a`, `u` and the empty name are not enabled |
| TagTrees.Append | lib/dom/DocHelper.js:398-401 | appending keeps the node's value and earlier children, in order, and puts the new child last |
| TagTrees.Step | lib/dom/DocHelper.js:79-127 | once the current node is `null` every callback fails with the `TypeError`; while a current node exists every callback succeeds |
| TagTrees.StepValues | lib/dom/DocHelper.js:79-127 | a callback adds to the tree's preorder exactly the node the event creates: an enabled open tag gives a named node, another tag a `<name>` or `</name>` text, a text its decoded form, and an enabled close tag nothing |
| TagTrees.RunValues | lib/dom/DocHelper.js:130-131 | across a run of callbacks, the preorder grows by exactly the created nodes, in event order |
| TagTrees.PreorderBlock | lib/dom/DocHelper.js:411-416 | in the `forEachDecendant` order, each visited node is directly followed by the visit of all its own descendants |
| TagTrees.PreorderConcat | lib/dom/DocHelper.js:411-416 | visiting two runs of siblings one after the other is visiting their concatenation |
| TagTrees.BuildTreePreorder | lib/dom/DocHelper.js:79-131 | whatever the nesting, a preorder visit of the built tree meets exactly the nodes the events created, in event order |
| TagTrees.BuildTreeFailsIff | lib/dom/DocHelper.js:118-121 | the parse fails exactly when an enabled close tag leaves the root and some event still follows; both directions are proved |
| TagTrees.Run | lib/dom/DocHelper.js:130-131 | none on the function itself; what a run does is stated by `RunFailsIff`, `RunValues`, `RunStaysBuilding`, `RunAppend`, `RunLift` and `RunPrefix` |
| TagTrees.BuildTree | lib/dom/DocHelper.js:74-131 | none on the function itself; the tree it builds is stated by `BuildTreeFailsIff`, `BuildTreePreorder`, `BuildTreeElement`, `UnclosedElement` and `BuildTreeLeaf` |
| TagTrees.RunAppend | lib/dom/DocHelper.js:130-131 | feeding two runs of events is feeding the first and then the second from where the first stopped; a failure in the first ends the parse |
| TagTrees.RunStaysBuilding | lib/dom/DocHelper.js:118-121 | while the balance of enabled opens over enabled closes stays non-negative, the parse never leaves the root and ends with as many open nodes as the balance |
| TagTrees.WellNestedBuilds | lib/dom/DocHelper.js:79-127 | properly nested events build without error and end with the root as the current node again |
| TagTrees.RunLift | lib/dom/DocHelper.js:79-127 | events that never leave their starting node build the same thing inside any open node: what they would build under the root becomes that node's children |
| TagTrees.RunPrefix | lib/dom/DocHelper.js:83-89 | nodes already under the root stay in front of whatever later events append; a failure is unchanged |
| TagTrees.BuildFromPrefix | lib/dom/DocHelper.js:133 | the finished root's children are the nodes already there followed by what the later events build on their own |
| TagTrees.BuildTreeElement | lib/dom/DocHelper.js:79-121 | an enabled open tag, properly nested contents and an enabled close tag become one node named after the open tag whose children are the tree the contents build on their own, in front of the tree of the following events |
| TagTrees.UnclosedElement | lib/dom/DocHelper.js:81-84 | an enabled open tag that is never closed still gives its node, since the node was attached when it was opened |
| TagTrees.BuildTreeLeaf | lib/dom/DocHelper.js:86-126 | a text, or a tag that is not enabled, becomes one `text` leaf in front of the tree of the following events |
| TagTrees.ListExample | lib/dom/DocHelper.js:79-127 | `<ul>a</ul>` builds one `ul` node holding the text leaf `a` |
| BlockConversion.DropLeadingNewline | lib/dom/DocHelper.js:202 | exactly one leading newline is removed when there is one; otherwise the text is unchanged |
| BlockConversion.DropTrailingNewline | lib/dom/DocHelper.js:202-203 | exactly one trailing newline is removed when there is one; otherwise the text is unchanged |
| BlockConversion.PreformattedText | lib/dom/DocHelper.js:202-203 | at most two characters go: a newline at each end is removed, text without framing newlines is kept, and a lone newline becomes empty |
| BlockConversion.FirstChildText | lib/dom/DocHelper.js:202-209 | reading the first child fails exactly when there is no child, and otherwise yields that child's text |
| BlockConversion.KindOf | lib/dom/DocHelper.js:165-218 | each `switch` case is selected exactly when the lower-cased name equals its label, and the default exactly when it equals none of them |
| BlockConversion.CreateBlock | lib/dom/DocHelper.js:159-222 | an unknown node gives `null`; `pre`, `b` or `code` without a child fails; a `text` node gives a block exactly when its text is truthy and not all white space; only `text` nodes give paragraphs |
| BlockConversion.Combine | lib/dom/DocHelper.js:170-175 | one child's result put before the rest: it fails exactly when either part fails, and the child's failure comes first |
| BlockConversion.Join | lib/dom/DocHelper.js:133-138 | two runs of results put together: it fails exactly when either run fails, and otherwise holds the first run's blocks followed by the second's |
| BlockConversion.ConvertChildren | lib/dom/DocHelper.js:170-175 | a successful conversion gives at most one block per child; failure and concatenation are stated by `ConvertChildrenFailsIff` and `ConvertChildrenConcat` |
| BlockConversion.ListOfConvertedChildren | lib/dom/DocHelper.js:166-200 | when every child converts, `ul` and `ol` give an unordered or ordered list, and `li` a list item, holding exactly the non-null blocks of the children in order |
| BlockConversion.ConvertChildrenFailsIff | lib/dom/DocHelper.js:170-198 | converting children fails exactly when some child fails to convert; both directions are proved |
| BlockConversion.ConvertChildrenConcat | lib/dom/DocHelper.js:133-198 | converting two runs of children one after the other equals converting their concatenation |
| BlockConversion.BlankTextIsDropped | lib/dom/DocHelper.js:211-217 | a `text` node of white space only gives `null` |
| BlockConversion.KindIgnoresCase | lib/dom/DocHelper.js:165-166 | `UL` selects the same `ul` case as `ul` |
| BlockConversion.PreKindIgnoresCase | lib/dom/DocHelper.js:165-201 | `Pre` selects the `pre` case |
| BlockConversion.PreDropsFramingNewlines | lib/dom/DocHelper.js:201-204 | a `pre` element whose text is framed by newlines becomes a code block built from exactly the text between them, which is what is handed to `tsumekusa.Code` |
| BlockConversion.PreOfElementFails | lib/dom/DocHelper.js:202 | a `pre` element whose first child is an element, with `null` text, fails |
| BlockConversion.ParseBlocks | lib/dom/DocHelper.js:71-147 | with HTML disabled the result is one paragraph of the string's inline contents; otherwise a failed tree build fails the whole parse, and a built tree gives the conversion of its top-level nodes |
| BlockConversion.ConvertOne | lib/dom/DocHelper.js:133-138 | a single top-level node that converts to a block gives exactly that one block |
| BlockConversion.PlainTextIsOneParagraph | lib/dom/DocHelper.js:71-147 | plain text that is not blank and has no `&`, `{` or markup parses to one paragraph holding the trimmed text |
| InlineTags.RunLength | lib/dom/DocHelper.js:239 | a greedy character class reaches exactly as far as the longest prefix whose characters all belong to it |
| InlineTags.MatchTag | lib/dom/DocHelper.js:239 | a match covers at least one character and never runs past the end of the text; what it matches is stated by `MatchTagText` |
| InlineTags.MatchTagText | lib/dom/DocHelper.js:239 | `{@name content}`, with a valid name and content, matches the tag group with exactly that name and content and consumes exactly the tag text, whatever follows it |
| InlineTags.ScanStep | lib/dom/DocHelper.js:239-248 | every match of the global replacement moves at least one character on and never past the end |
| InlineTags.Scan | lib/dom/DocHelper.js:239-248 | none on the function itself; the tokens are stated by `ScanPreThenTag`, `ScanTagFirst`, `ScanWithoutBrace` and `ScanRender` |
| InlineTags.ResolveInlineLink | lib/dom/DocHelper.js:308-317 | a link whose first non-space character is `#` is prefixed with the current doclet's truthy `memberof`; in every other case the link is returned as it is |
| InlineTags.ResolveIdempotent | lib/dom/DocHelper.js:308-317 | resolving an already resolved link changes nothing, unless the parent name itself is blank or starts with `#` |
| InlineTags.CreateInlineElement | lib/dom/DocHelper.js:287-298 | a `link` tag, in any case, gives a link to the resolved target; `plain` and `code` give inline code; any other name gives an unknown tag that keeps the name as written |
| InlineTags.DispatchIgnoresCase | lib/dom/DocHelper.js:289 | `LINK` and `lin` followed by KELVIN SIGN dispatch like `link`; `Code` and `PLAIN` give inline code |
| InlineTags.UnknownTagPassesThrough | lib/dom/DocHelper.js:295-296 | an unknown tag publishes as its bare content |
| InlineTags.ParseInlineTags | lib/dom/DocHelper.js:233-252 | the result is never empty; with inline tags disabled it is the input alone; otherwise, when the scan pushes anything, it holds one content per pushed token, in order |
| InlineTags.ScanPreThenTag | lib/dom/DocHelper.js:239-248 | text without `{` followed by an inline tag gives the trimmed text, when there is any, then the tag, then the scan of the rest |
| InlineTags.ScanTagFirst | lib/dom/DocHelper.js:239-248 | an inline tag at the start gives the tag, then the scan of the rest |
| InlineTags.ScanWithoutBrace | lib/dom/DocHelper.js:239-242 | non-empty text without `{` gives a single trimmed text |
| InlineTags.ParseWithoutBrace | lib/dom/DocHelper.js:233-252 | input without `{` parses to its trimmed form alone, and the empty input to itself |
| InlineTags.SeeUnknownTagExample | lib/dom/DocHelper.js:233-298 | `see {@xyzzy plugh}` parses to the text `see` and an unknown `xyzzy` tag with content `plugh` |
| InlineTags.StrayBraceIsDropped | lib/dom/DocHelper.js:239-248 | a `{` that starts no inline tag is dropped, and the texts on either side come out as two separate trimmed texts |
| InlineTags.ScanRender | lib/dom/DocHelper.js:239-248 | scanning undoes rendering for every well-formed token sequence |
| JsStrings.TrimIsSlice | lib/dom/DocHelper.js:242 | the trimmed text is a contiguous slice of the input, with white space only outside it and no white space at either of its ends |
| JsStrings.TrimIdempotent | lib/dom/DocHelper.js:242 | trimming twice equals trimming once |
| JsStrings.Trim | lib/dom/DocHelper.js:242 | none on the function itself; stated by `TrimIsSlice` and `TrimIdempotent` |
| ClassDocuments.NewClassDocument | tsumekusaJsdoc/documents/ClassDocument.js:36-40 | a new document keeps its symbol, has all four lists unset and has no containers yet |
| ClassDocuments.SetMembers | tsumekusaJsdoc/documents/ClassDocument.js:90-161 | a setter fails with its own message exactly when its list is already set; otherwise it stores the argument, `null` included, and changes nothing else |
| ClassDocuments.SetTwiceFails | tsumekusaJsdoc/documents/ClassDocument.js:90-95 | a list set once, even to `[]`, cannot be set again |
| ClassDocuments.SetNullThenSet | tsumekusaJsdoc/documents/ClassDocument.js:90-95 | setting `null` leaves the list settable, and a later set stores its value |
| ClassDocuments.SettersCommute | tsumekusaJsdoc/documents/ClassDocument.js:90-161 | setting two different lists gives the same document in either order |
| ClassDocuments.ContainerFor | tsumekusaJsdoc/documents/ClassDocument.js:65-80 | a kind gets a container exactly when its list is set and not empty, and the container holds that list and the document's symbol |
| ClassDocuments.Publish | tsumekusaJsdoc/documents/ClassDocument.js:55-83 | publishing keeps the earlier containers, appends exactly the new ones, and leaves the symbol and lists unchanged |
| ClassDocuments.PublishAppendsIff | tsumekusaJsdoc/documents/ClassDocument.js:65-80 | a container of a kind is appended exactly when that list is set and not empty, and every appended container belongs to the document's symbol and holds its kind's list |
| ClassDocuments.PublishOrdered | tsumekusaJsdoc/documents/ClassDocument.js:65-80 | the appended containers come in the order static methods, static properties, instance methods, instance properties |
| ClassDocuments.PublishTwice | tsumekusaJsdoc/documents/ClassDocument.js:55-83 | nothing guards a second publish, which appends the same containers again |
| ClassDocuments.EmptyListsPublishNothing | tsumekusaJsdoc/documents/ClassDocument.js:65-80 | when every list is set but empty, nothing is appended |
| NamespaceDocuments.NewNamespaceDocument | tsumekusaJsdoc/documents/NamespaceDocument.js:25-29 | a new document keeps its symbol, has both lists unset and has no containers yet |
| NamespaceDocuments.SetNamespaceMembers | tsumekusaJsdoc/documents/NamespaceDocument.js:66-93 | a setter fails with its own message exactly when its list is already set; otherwise it stores the argument and changes nothing else |
| NamespaceDocuments.NamespaceContainerFor | tsumekusaJsdoc/documents/NamespaceDocument.js:51-56 | a kind gets a container exactly when its list is set, even when the list is empty |
| NamespaceDocuments.PublishNamespace | tsumekusaJsdoc/documents/NamespaceDocument.js:43-59 | publishing keeps the earlier containers, appends exactly the new ones, and leaves the symbol and lists unchanged |
| NamespaceDocuments.NamespacePublishesSetLists | tsumekusaJsdoc/documents/NamespaceDocument.js:51-56 | only static methods and static properties are appended, in that order, each exactly when its list is set |
| NamespaceDocuments.EmptyListStillPublished | tsumekusaJsdoc/documents/NamespaceDocument.js:51-53 | an empty static-methods list still gets a container, where a class document would append none |
| NamespaceDocuments.NamespacePublishTwice | tsumekusaJsdoc/documents/NamespaceDocument.js:43-59 | a second publish appends the same containers again |
| DocElements.ParseBlocks | lib/dom/DocHelper.js:71-147 | with HTML disabled, the string becomes one paragraph of its inline contents; with HTML enabled, a failed tree build fails the parse |
| MemberDefinitions.CreateSummaryBlocks | lib/dom/MemberDefinition.js:66-70 | a truthy description is parsed; a missing or empty one is replaced by `NO_DESCRIPTION` before parsing |
| MemberDefinitions.Details | lib/dom/MemberDefinition.js:87-101 | at most three details, in the order visibility, deprecation, see-also, and each detail carries the field it was built from |
| MemberDefinitions.DetailsPresence | lib/dom/MemberDefinition.js:91-101 | each detail is present exactly when its field is truthy; any `see` array, even an empty one, counts as truthy |
| MemberDefinitions.CreateDetailDefinitionList | lib/dom/MemberDefinition.js:87-104 | the list is `null` exactly when access is falsy, the symbol is not deprecated and `see` is unset; otherwise it holds the details and is not empty |
| MemberDefinitions.NewMemberDefinition | lib/dom/MemberDefinition.js:30-49 | the constructor fails exactly when the summary parse fails; the term holds only the digest; the descriptions are the summary blocks in order, followed by the detail list when there is one |
| MemberDefinitions.MemberDefinitionReadsBack | lib/dom/MemberDefinition.js:30-49 | the built descriptions give back exactly the parsed summary and the detail list they were built from |
| MemberDefinitions.UndocumentedMember | lib/dom/MemberDefinition.js:30-104 | with HTML disabled, a member without a description or details gets one paragraph parsed from `NO_DESCRIPTION` and no detail list |
| ParametersDefinitions.GetCaption | lib/dom/ParametersDefinition.js:73-143 | the caption is `Parameters` followed by a colon |
| ParametersDefinitions.ParamTermOf | lib/dom/ParametersDefinition.js:86-95 | the term keeps the decorated parameter name and the tag it came from |
| ParametersDefinitions.ParamDefinitionOf | lib/dom/ParametersDefinition.js:50-59 | a parameter's definition fails exactly when parsing its description, or `NO_DESCRIPTION`, fails; otherwise it holds the parsed blocks and a term paragraph with only the parameter term |
| ParametersDefinitions.ParamDefinitions | lib/dom/ParametersDefinition.js:49-61 | on success, there is one definition per tag, in tag order, and each is that tag's definition |
| ParametersDefinitions.ParamDefinitionsFailIff | lib/dom/ParametersDefinition.js:49-61 | building the definitions fails exactly when some parameter's description fails to parse; both directions are proved |
| ParametersDefinitions.NewParametersDefinition | lib/dom/ParametersDefinition.js:35-64 | the term is the caption; there is exactly one inner list, marker-less, with one definition per parameter in order; with no `params` the list is empty |
| ParametersDefinitions.MissingDescriptionFallsBack | lib/dom/ParametersDefinition.js:52-53 | a parameter without a description is described by `NO_DESCRIPTION` |
| ParametersDefinitions.TermIsBreakable | lib/dom/ParametersDefinition.js:117-120 | a parameter term is never breakable |
| ParametersDefinitions.PublishTerm | lib/dom/ParametersDefinition.js:131-134 | the published term starts with the published name, ends with the published type, and is exactly two characters longer than the two together |
| ParametersDefinitions.PublishTermSplits | lib/dom/ParametersDefinition.js:131-134 | when the published name has no colon, the term's first colon separates the name from a space and the type |
| FunctionDigests.ParamEntry | lib/dom/FunctionDigest.js:52-61 | without `VERBOSE_PARAM` an entry is the published decorated name; with it, the name, a space and the published type |
| FunctionDigests.ParamEntries | lib/dom/FunctionDigest.js:52-62 | one entry per parameter tag, in order |
| FunctionDigests.PublishDigest | lib/dom/FunctionDigest.js:41-80 | the digest is the published long name and `(`, then the parameter entries, then `)`, then the return part; with neither parameters nor returns it is the name followed by `()` |
| FunctionDigests.DigestEnding | lib/dom/FunctionDigest.js:66-77 | a digest without returns ends with `)`; a digest with returns ends with ` -> ` followed by the return types joined with `,` |
| FunctionDigests.UnjoinJoin | lib/dom/FunctionDigest.js:62 | pieces without commas come back from their `, `-join |
| FunctionDigests.DigestParamNamesRoundTrip | lib/dom/FunctionDigest.js:47-66 | without `VERBOSE_PARAM`, the text between the parentheses gives back the published parameter names, in order, when none of them holds a comma |
| FunctionDigests.DigestReturnTypesRoundTrip | lib/dom/FunctionDigest.js:68-79 | the return types come back from the end of the digest when none of them holds a comma |

## Left out

- htmlparser2 is not modelled. Its callbacks are given as a sequence of open, text and close events, so tokenising HTML, implied closes and attribute handling are outside the model.
- The `trim`, `trimLeft` and `trimRight` polyfills in `lib/dom/DocHelper.js` are environment shims. `Trim` models the native `String.prototype.trim`.
- Warnings (`tsumekusa.warn`, `console.warn`) are a side channel and are dropped. The one exception is the unknown-inline-tag warning, whose text is returned next to the published content.
- EntityDecoding.NumberAfterZero: exponent forms (`#1e2`, which `Number` reads as 100) are read as `NaN`.
- EntityDecoding.FromCharCode: a lone surrogate code unit cannot be a Dafny `char`, so it becomes U+FFFD.
- `tsumekusa.string.fillMiddle` and `repeat` are not part of this model. They are specified simply, as head, filling spaces and tail, with no filling when the two do not fit.
- The display width (`TEXT_WIDTH` or the publisher's width) is a parameter. Word wrapping (`WordWrapper`, the paragraph and sentence publishers) is not modelled. `Sentence.js` is not part of this model: a sentence is either an existing one, identified by a reference, or the wrapping of a raw value.
- `Container.js` is not part of this model. The container tree's shape (depth, index, ancestors) is inferred from how the publishers and the end-to-end test use it.
- Constructor reference errors are not modelled: the undeclared `opt_refHelper` in `Document.js`, and `ClassDocument.CAPTION` read by `NamespaceDocument.js` without `ClassDocument` being required. The namespace document is modelled as intended, and its caption is not part of the model.
- `SymbolDocument.publish` and the members containers (`StaticMethodsContainer` and the others) are not part of this model. A container is represented by its kind, owner and members, and publishing is represented by the containers it appends.
- `tsumekusaJsdoc.hasParam` and `hasReturn` are not part of this model. They are taken to mean "at least one `params` tag" and "at least one `returns` tag". `addInlineElement` and `addInlineElements` are taken to be `addInlineContent` and `addInlineContents`.
- The detail definitions (`VisibilityDefinition`, `DeprecationDefinition`, `SeeDefinition`) and `createDigest`, which is abstract, are not part of this model. Each detail is represented by the value it is built from, and the digest is a parameter.
- `FunctionDigest.VERBOSE_PARAM` is a parameter. A parameter term has no publisher (`getPublisher` returns `null`), so `PublishTerm` stands for its rendering.
- The "now" date default in `Document.js` is nondeterministic and is a parameter.
- Singleton getters and the mutable `publisher` bindings are global plumbing. Publishers are passed explicitly.
- ReferenceHelpers.Dirname: the contract states only the empty and the relative slash-free cases. The directory of a joined path is stated by `DirnameOfJoin`, and the algorithm follows Node's POSIX `path.dirname`.
- ReferenceHelpers.GetDirectoryPath: the contract states only the top-level case. Members are covered by `DirectoryOfMember`.
- DocElements.ParseBlocks: the contract states the HTML-disabled result and the failure of a bad tree. The full statement is `BlockConversion.ParseBlocks`.
- InlineTags.ScanStep: the contract states progress only. What the scan pushes is stated by the `Scan*` lemmas and by `ScanRender`.
- BlockConversion.CreateBlock: the list cases are stated by `ListOfConvertedChildren`. The `b` and `code` cases keep the first child's text, which may be `null`, and are not stated separately.
- `tsumekusa.Code` is not part of this model. The `pre` case's code block holds the text handed to it, after the framing newlines are dropped.
- `tsumekusa.string.trim` (`lib/dom/DocHelper.js`, lines 12 and 242) is not part of this model. It is taken to be the native `String.prototype.trim`, which the file's own `trim` shim also implements.
- ContentArrays.IndexOf and ContentArrays.RemoveChild compare children by value. JavaScript's `indexOf` compares objects by identity, so two equal but distinct children are one child here.
- ParametersDefinitions.NewParametersDefinition builds tsumekusa's `DefinitionList` with the list type and `NoMarker` of `DefinitionLists`. The tsumekusa class itself is not part of this model.
