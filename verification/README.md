# Smartling WordPress connector: core model in Dafny

This project models four deterministic, single-threaded parts of the
Smartling WordPress localization plugin, and proves properties about them:

- **Flat-field XML codec** (`XmlEncoder`). A post's nested source array is
  flattened into ordered slash-path strings. Fields are filtered out for
  sending, and the result is written as `<string>` nodes. The serialized
  original goes beside them in a base64 `<source>` blob. Decoding reads the
  blob back, overlays the translated strings, coerces numeric strings to
  integers, prunes ignored keys and restructures the tree.
- **Gutenberg block codec** (`GutenbergBlockHelper`). Parsed blocks are
  placed as wire nodes whose children are chunks, nested blocks and
  attributes. A translated wire node is rendered back to block comment
  markup.
- **Last-modified reconciliation** (`LastModifiedCheckJob`). Submissions
  are keyed by locale and compared with the remote last-modified times.
  Outdated ones are stored and status-checked. One file URI's network error
  skips only that file URI.
- **Related-content resolution** (`SmartlingCore`). The blog switch/restore
  bracket is modelled as a state machine over the current blog, the switch
  stack and a trace of external effects. On it sit the accumulator of
  related terms and menu items, the menu item and widget rewrites, the
  featured image handling and the final application. Bulk status checks
  are modelled too.

PHP ordered arrays are sequences of `Pair(key, value)` with unique keys
(`OrderedMap`); `$a[$k] = $v` replaces in place or appends. PHP values are
`Tree = Leaf(Scalar) | Map(entries)`. The following are function-typed
parameters (oracles):

- every external library: DOM parsing and serialisation, `base64`,
  `serialize`, `md5`, `json_encode`, `preg_match`, `urlencode` and
  `gutenberg_parse_blocks`;
- every WordPress or network call.

Round-trip facts about oracles appear only as `requires` on the lemmas that
need them (`XmlEncoder.RoundTripExternals`, `GutenbergBlockHelper.NeutralHooks`).

Files:

- `wrappers.dfy`: `Option` and `Result`.
- `ordered_map.dfy`: PHP arrays.
- `php_string.dfy`: `explode`, `implode`, `str_split`, `strpos`, integer strings.
- `php_value.dfy`: scalars, `(string)` casts, trees.
- `path_flattener.dfy`: `flatternArray` and `structurizeArray`.
- `field_filter.dfy`: the three deletion filters.
- `xml_encoder.dfy`: the codec.
- `gutenberg_block_helper.dfy`, `last_modified_check_job.dfy`, `smartling_core.dfy`.

## Model

| member | source | states |
|---|---|---|
| OrderedMap.Assign | inc/Smartling/Helpers/XmlEncoder.php:88 | `$a[$k] = $v` makes `k` map to `v`. An existing key keeps its position; a new key is appended at the end. |
| OrderedMap.AssignOther | inc/Smartling/Helpers/XmlEncoder.php:88 | Assigning one key leaves the lookup of every other key unchanged. |
| OrderedMap.AssignAllLookup | inc/Smartling/Helpers/XmlEncoder.php:85-86 | After `array_merge`/overlay, a key holds the overlay's last value when the overlay has it, else its old value. |
| OrderedMap.AssignAllKeys | inc/Smartling/Helpers/XmlEncoder.php:85-86 | An overlay keeps every old key, in order, and keeps keys unique. |
| OrderedMap.Filter | inc/Smartling/Helpers/XmlEncoder.php:142-193 | The kept entries are exactly those satisfying the predicate, in original order. |
| PhpString.ExplodeImplode | inc/Smartling/Helpers/XmlEncoder.php:76-117 | Exploding paths joined with `/` gives back the segments, provided no segment contains `/`. |
| PhpString.ImplodeExplode | inc/Smartling/Helpers/XmlEncoder.php:76-117 | Joining the exploded pieces gives back the string. |
| PhpString.StrSplit | inc/Smartling/Helpers/XmlEncoder.php:230-232 | `str_split` pieces are at most `n` long, all but the last exactly `n`, and concatenate to the input. |
| PhpString.IntStringRoundTrip | inc/Smartling/Helpers/XmlEncoder.php:325-327 | A printed integer is numeric in the `is_numeric` sense and reads back as the same integer. |
| PhpValue.Cast | inc/Smartling/Helpers/XmlEncoder.php:88 | The `(string)` cast: strings are unchanged, integers print as numeric strings of their value, `true` is `"1"`, `false` and `null` are `""`. |
| PathFlattener.Flatten | inc/Smartling/Helpers/XmlEncoder.php:76-93 | `flatternArray` yields unique paths. |
| PathFlattener.FlattenIsPreOrder | inc/Smartling/Helpers/XmlEncoder.php:79-89 | For a well-formed tree, `flatternArray` equals the pre-order listing. That listing gives each leaf, cast to string, under `base/key` (the bare key at the top). |
| PathFlattener.LastWriteWins | inc/Smartling/Helpers/XmlEncoder.php:104-114 | In `structurizeArray`, the last entry for a path determines the value found at that path. |
| PathFlattener.SetPathValue | inc/Smartling/Helpers/XmlEncoder.php:106-113 | Writing through a PHP reference into the output array creates the missing intermediate arrays and leaves the value at the path. |
| PathFlattener.SetPathElsewhere | inc/Smartling/Helpers/XmlEncoder.php:106-113 | Writing a value at one path does not change what is found at a path that is neither a prefix nor an extension of it. |
| PathFlattener.StructurizeLookup | inc/Smartling/Helpers/XmlEncoder.php:101-117 | For a flat map with unique keys, structurizing it leaves each entry's value at its exploded path. This holds when no other key's path is a prefix or an extension of that path. |
| PathFlattener.StructurizeConcat | inc/Smartling/Helpers/XmlEncoder.php:101-117 | Structurizing the flattening of fresh entries appends their stringified subtrees to the container at the base path. |
| PathFlattener.RoundTrip | inc/Smartling/Helpers/XmlEncoder.php:76-117 | `structurizeArray(flatternArray(t))` is `t` with every leaf cast to string. This holds when `t` has unique keys, no `/` in keys, no empty nested arrays and no top-level nested array under `""`. |
| PathFlattener.RoundTripStrings | inc/Smartling/Helpers/XmlEncoder.php:76-117 | For such a tree whose leaves are already strings, the round trip is the identity. |
| FieldFilter.RemoveFields | inc/Smartling/Helpers/XmlEncoder.php:142-156 | Keeps exactly the entries whose key contains none of the url-encoded list items, in original order. |
| FieldFilter.RemoveEmptyFields | inc/Smartling/Helpers/XmlEncoder.php:163-173 | Keeps exactly the entries whose value PHP's `empty` rejects (`""` and `"0"` are dropped), in original order. |
| FieldFilter.RemoveValuesByRegExp | inc/Smartling/Helpers/XmlEncoder.php:181-193 | Keeps exactly the entries whose value matches none of the patterns, in original order. |
| FieldFilter.RebuildIsFilter | inc/Smartling/Helpers/XmlEncoder.php:145-155 | The rebuild loop that assigns kept entries into a fresh array is the order-preserving filter. |
| FieldFilter.RemoveFieldsIdempotent | inc/Smartling/Helpers/XmlEncoder.php:142-156 | Removing the same fields twice changes nothing more. |
| XmlEncoder.NormalizeSource | inc/Smartling/Helpers/XmlEncoder.php:124-133 | Every one-element array directly under `meta` is replaced by its element. A missing `meta` is created as null; a scalar `meta` is left alone. |
| XmlEncoder.NormalizeOnlyMeta | inc/Smartling/Helpers/XmlEncoder.php:124-133 | No entry other than `meta` changes. |
| XmlEncoder.SendFilters | inc/Smartling/Helpers/XmlEncoder.php:219-224 | The send filters keep an entry iff all hold: its key matches no ignore name, its key matches no copy name, its value matches no copy pattern, and its value is not empty. Order is kept. |
| XmlEncoder.PreparedTree | inc/Smartling/Helpers/XmlEncoder.php:196-213 | Only `meta` is changed by normalisation and the per-meta preparation. |
| XmlEncoder.SendFiltersDownload | inc/Smartling/Helpers/XmlEncoder.php:195-228 | For every source, the send result is the download result with the send filters applied. It is therefore a sub-map of the download result, in the same order. |
| XmlEncoder.PrepareMetaPlain | inc/Smartling/Helpers/XmlEncoder.php:204-213 | Both strategies prepare every meta list the same way. Nested arrays and serialized strings are treated alike. |
| XmlEncoder.EncodeSourceLines | inc/Smartling/Helpers/XmlEncoder.php:230-232 | The encoded source consists of lines of at most 80 characters. Dropping the line breaks gives back the payload. |
| XmlEncoder.SourceRoundTrip | inc/Smartling/Helpers/XmlEncoder.php:230-236 | `decodeSource(encodeSource(src))` is `src` when base64 and serialize round-trip. |
| XmlEncoder.KeyAttribute | inc/Smartling/Helpers/XmlEncoder.php:264-277 | A string node gets a `key` attribute iff some key group has a field contained in the name. When several groups match, the value is that of the last matching group. |
| XmlEncoder.RowToXmlNode | inc/Smartling/Helpers/XmlEncoder.php:264-277 | A string node carries its name and value, and has a key iff some key group matches. |
| XmlEncoder.CommentsIdentifyVersion | inc/Smartling/Helpers/XmlEncoder.php:21-67 | The magic comments before the version comment do not depend on the version. Two documents carry the same comments iff they were written by the same connector version. |
| XmlEncoder.EncodeDocument | inc/Smartling/Helpers/XmlEncoder.php:243-259 | There is one string node per send-prepared entry, in order, with its name and value. The source blob is the encoded original. |
| XmlEncoder.CoerceValue | inc/Smartling/Helpers/XmlEncoder.php:324-328 | A value becomes an integer iff it is a numeric string. That integer is the one the string denotes, and it prints back to the canonical form. Any other value stays the same string. |
| XmlEncoder.Coerce | inc/Smartling/Helpers/XmlEncoder.php:324-328 | Coercion keeps the keys and coerces each value. |
| XmlEncoder.DecodeMerge | inc/Smartling/Helpers/XmlEncoder.php:317-330 | The merged map is exactly the coerced overlay of the translated fields onto the flat source, minus keys matching the ignore list. Its keys are unique and it is a subsequence of that overlay, so order is kept. |
| XmlEncoder.DecodeMergeLookup | inc/Smartling/Helpers/XmlEncoder.php:317-328 | A decoded string field overrides the source's value at that path. A path absent from the fields keeps the source's value. |
| XmlEncoder.XmlDecode | inc/Smartling/Helpers/XmlEncoder.php:285-333 | Unparsable XML fails with the invalid-XML error. The only other failure is a source blob that does not decode to an array. |
| XmlEncoder.DecodeOfEncode | inc/Smartling/Helpers/XmlEncoder.php:243-333 | For every source, decoding an encoded document gives the download preparation of the original, structurized, ignore-pruned and coerced. This holds when the external codecs round-trip. |
| GutenbergBlockHelper.PlaceContent | inc/Smartling/Helpers/GutenbergBlockHelper.php:104-112 | The content children are the placed content entries, in order. |
| GutenbergBlockHelper.ProcessString | inc/Smartling/Helpers/GutenbergBlockHelper.php:134-151 | Text without `<!-- wp:` is returned unchanged. Otherwise the CDATA is cleared and, after the existing children, child `|children| + i` is the placement of the i-th parsed block, which is well formed. This fails iff some parsed block places more inner blocks than it has, or one of its placed blocks does. |
| GutenbergBlockHelper.RenderGutenbergBlock | inc/Smartling/Helpers/GutenbergBlockHelper.php:250-271 | The markup opens with `<!-- wp:NAME`, followed by a space and the JSON only when there are attributes. With chunks, that head is followed by ` -->`, then the concatenated chunks, then `<!-- /wp:NAME -->`. Without chunks, the head is followed by ` /-->` only. |
| GutenbergBlockHelper.SelfClosingIffNoChunks | inc/Smartling/Helpers/GutenbergBlockHelper.php:252-268 | A rendered block is self-closing (`/-->`) iff it has no chunks. |
| GutenbergBlockHelper.TranslationAttributes | inc/Smartling/Helpers/GutenbergBlockHelper.php:198-217 | Empty or null original attributes yield none, so translations are dropped. A non-array original fails. Any array original succeeds. |
| GutenbergBlockHelper.TranslatedValuesWin | inc/Smartling/Helpers/GutenbergBlockHelper.php:198-217 | For non-empty original attributes, the merged attributes hold each key's translated value. Without a translation, they hold its post-received value, and otherwise its original flattened value. This is stated for keys whose path no other key's path extends or shortens. |
| GutenbergBlockHelper.TranslationAttributesNeutral | inc/Smartling/Helpers/GutenbergBlockHelper.php:200-211 | With hooks that only return original pairs, and translated pairs that are all original flattened pairs, merging the original, post-received and translated attributes and then structurizing gives back the original attributes with leaves cast to strings. |
| GutenbergBlockHelper.TranslationAttributesAsWritten | inc/Smartling/Helpers/GutenbergBlockHelper.php:200-209 | As written: non-empty attributes that flatten to nothing leave `$attr` undefined and the merge fails. In every other case it agrees with the corrected definition. |
| GutenbergBlockHelper.EmptyNestedAttributeFails | inc/Smartling/Helpers/GutenbergBlockHelper.php:200-209 | `{"style": []}` makes the as-written merge fail, while the corrected one yields no attributes. |
| GutenbergBlockHelper.SentAttributes | inc/Smartling/Helpers/GutenbergBlockHelper.php:50-70 | With hooks that only return original pairs, every attribute a block sends, once read back by name, is one of the block's own flattened attributes. |
| GutenbergBlockHelper.SortAttributes | inc/Smartling/Helpers/GutenbergBlockHelper.php:175-177 | The `blockAttribute` nodes that placement appends (one per sent attribute, named by hash) are read back under their names, with their values. Attributes are assigned by name in order, so a later duplicate wins. For arbitrary children, see SortFromCollects. |
| GutenbergBlockHelper.SortFromCollects | inc/Smartling/Helpers/GutenbergBlockHelper.php:158-189 | For any block node, the sort loop succeeds iff every nested block renders. It then yields the reference: each child's chunk (a block's rendering or a chunk's text) in document order, and the attribute children assigned by name in document order, so a later duplicate wins. |
| GutenbergBlockHelper.RenderNodeOf | inc/Smartling/Helpers/GutenbergBlockHelper.php:219-245 | For any block node, an unnamed one renders as the concatenation of its sorted chunks. A named one renders as the block markup of its merged translated attributes and sorted chunks. It succeeds iff every nested block renders and the attribute merge succeeds. |
| GutenbergBlockHelper.SortContent | inc/Smartling/Helpers/GutenbergBlockHelper.php:163-189 | Sorting a placed block's content children collects, in document order, the rendering of each nested block and the text of each chunk. |
| GutenbergBlockHelper.RenderOfPlace | inc/Smartling/Helpers/GutenbergBlockHelper.php:91-271 | With neutral hooks, rendering a placed block gives the block's reference markup. Unnamed blocks render as their plain content, and nested blocks are restored at their placeholders. |
| GutenbergBlockHelper.RenderChildren | inc/Smartling/Helpers/GutenbergBlockHelper.php:291-301 | Rendering succeeds iff every `gutenbergBlock` child renders. The result is then the in-order concatenation of each child's contribution: its rendering for a block, nothing for any other node. |
| GutenbergBlockHelper.RenderSkipsOthers | inc/Smartling/Helpers/GutenbergBlockHelper.php:291-301 | Non-block children ahead of the blocks do not change the rendering. |
| GutenbergBlockHelper.NonBlockChildren | inc/Smartling/Helpers/GutenbergBlockHelper.php:296-299 | After rendering, exactly the children that are not block nodes remain. They remain in order (a subsequence) and with the same multiplicities; no block node remains. |
| GutenbergBlockHelper.ProcessTranslation | inc/Smartling/Helpers/GutenbergBlockHelper.php:280-305 | A non-empty CDATA is kept as is. From an empty one, the result succeeds iff every block child renders. The new CDATA is the in-order concatenation of the block renderings, and the non-block children are kept in order. |
| GutenbergBlockHelper.RenderPlacedBlocks | inc/Smartling/Helpers/GutenbergBlockHelper.php:291-301 | Rendering the placed blocks gives the concatenated reference markup of the parsed blocks. |
| GutenbergBlockHelper.TranslationOfPlacedString | inc/Smartling/Helpers/GutenbergBlockHelper.php:134-305 | `processTranslation(processString(s))` turns the text into the reference markup of its parsed blocks and restores the original children. This assumes neutral hooks and no translation. |
| GutenbergBlockHelper.SortFirstChild | inc/Smartling/Helpers/GutenbergBlockHelper.php:158-189 | As PHP 7 runs the loop: removing the child in hand ends the `foreach`, so at most one chunk or attribute is collected. An empty node collects nothing. |
| GutenbergBlockHelper.RenderNodeAsWritten | inc/Smartling/Helpers/GutenbergBlockHelper.php:219-245 | As written under PHP 7: an unnamed block without children renders as the empty string. One whose first child is a chunk renders as that chunk's text, and one whose first child is an attribute or other node renders as the empty string. |
| GutenbergBlockHelper.AsWrittenRendersFirstChild | inc/Smartling/Helpers/GutenbergBlockHelper.php:158-245 | Under PHP 7, a block node renders as the corrected rendering of the node cut down to its first child. The exception is a named node whose attributes flatten to nothing, which fails. A nested block as first child is rendered as written; its failure propagates, and a named parent wraps its rendering with no translated attributes. |
| GutenbergBlockHelper.FirstBlock | inc/Smartling/Helpers/GutenbergBlockHelper.php:291-300 | The position of the first `gutenbergBlock` child: none iff no child is a block. Every child before it is not a block. |
| GutenbergBlockHelper.ProcessTranslationAsWritten | inc/Smartling/Helpers/GutenbergBlockHelper.php:280-305 | As PHP 7 runs it: a non-empty CDATA is kept. Otherwise at most one child is removed, and the remaining children are a subsequence of the original ones. |
| GutenbergBlockHelper.SecondChunkDropped | inc/Smartling/Helpers/GutenbergBlockHelper.php:158-189 | A block of chunks `a`, `b` renders as `a` under PHP 7 but as `ab` in the corrected loop. |
| GutenbergBlockHelper.SecondBlockNotRendered | inc/Smartling/Helpers/GutenbergBlockHelper.php:291-300 | Two block children `a`, `b`: under PHP 7 only `a` is rendered and `b` stays a child. The corrected loop renders `ab` and removes both. |
| LastModifiedCheckJob.PrepareSubmissionList | inc/Smartling/Jobs/LastModifiedCheckJob.php:280-290 | Each submission is keyed by its locale; keys are unique and the output is no longer than the input. |
| LastModifiedCheckJob.PrepareLastWins | inc/Smartling/Jobs/LastModifiedCheckJob.php:280-290 | Each locale maps to the last submission with that locale. |
| LastModifiedCheckJob.OutdatedEntries | inc/Smartling/Jobs/LastModifiedCheckJob.php:117-137 | The reference filter: its keys are response keys, in response order. |
| LastModifiedCheckJob.FilterFromIsOutdated | inc/Smartling/Jobs/LastModifiedCheckJob.php:117-137 | The `filterSubmissions` loop computes the reference filter. |
| LastModifiedCheckJob.FilterSubmissionsLookup | inc/Smartling/Jobs/LastModifiedCheckJob.php:117-137 | A locale is kept iff it is both a response key and a submission key, with differing timestamps. The kept submission gets the response timestamp. |
| LastModifiedCheckJob.FilterSubmissionsOrder | inc/Smartling/Jobs/LastModifiedCheckJob.php:120-130 | The result follows the response's iteration order. |
| LastModifiedCheckJob.StoreSubmissions | inc/Smartling/Jobs/LastModifiedCheckJob.php:159-165 | The manager is called only for a non-empty list. |
| LastModifiedCheckJob.CheckEntityForDownload | inc/Smartling/Jobs/LastModifiedCheckJob.php:235-255 | The id is enqueued for download iff completion is exactly 100. |
| LastModifiedCheckJob.CheckAllEnqueues | inc/Smartling/Jobs/LastModifiedCheckJob.php:225-227 | An id is enqueued iff some checked submission with that id is 100% complete. |
| LastModifiedCheckJob.StatusCheck | inc/Smartling/Jobs/LastModifiedCheckJob.php:215-230 | The status check fails iff the status request for the locale-keyed list fails. Otherwise the checked submissions are stored first, and then only enqueue events follow. An id is enqueued iff some stored checked submission with that id is 100% complete. |
| LastModifiedCheckJob.FileUriEvents | inc/Smartling/Jobs/LastModifiedCheckJob.php:173-206 | A network error on the last-modified request records the failure for that file URI only. Otherwise the events are those of the response, as ResponseEvents states. |
| LastModifiedCheckJob.ResponseEvents | inc/Smartling/Jobs/LastModifiedCheckJob.php:188-206 | No outdated submission gives no events. Otherwise the outdated submissions are stored first. The status check runs iff the store returned submissions, and its failure adds only the status-check failure for that file URI. On success its events follow. |
| LastModifiedCheckJob.LastModifiedCheck | inc/Smartling/Jobs/LastModifiedCheckJob.php:170-208 | The job's loop over dequeued batches produces the events of every file URI of every batch, in order. |
| LastModifiedCheckJob.ProcessBatch | inc/Smartling/Jobs/LastModifiedCheckJob.php:173-206 | One batch yields the events of its file URIs, in order. |
| LastModifiedCheckJob.ErrorSkipsOnlyItsFileUri | inc/Smartling/Jobs/LastModifiedCheckJob.php:173-187 | A failing file URI adds only its failure event. The file URIs before and after it are processed as if it were absent. |
| SmartlingCore.Switch | inc/Smartling/Base/SmartlingCore.php:49-51 | Switching pushes the current blog and records the switch. |
| SmartlingCore.Restore | inc/Smartling/Base/SmartlingCore.php:57-59 | Restoring pops the previous blog and records the restore. |
| SmartlingCore.RestoreUndoesSwitch | inc/Smartling/Base/SmartlingCore.php:46-60 | A restore after a switch returns to the entry blog and stack. |
| SmartlingCore.RunActions | inc/Smartling/Base/SmartlingCore.php:53-55 | The actions run in the current blog, in order, and complete iff none throws. |
| SmartlingCore.InBlog | inc/Smartling/Base/SmartlingCore.php:46-135 | A bracket completes iff the blog is the current one or exists, and no action throws. On completion the blog and stack are those on entry; the trace switches and restores iff the blog differs. An exception after a switch leaves the other blog current, because restore is not in a `finally`. |
| SmartlingCore.SaveTargetEntity | inc/Smartling/Base/SmartlingCore.php:46-60 | Saving happens in the target blog inside the bracket. |
| SmartlingCore.SetMetaForTargetEntity | inc/Smartling/Base/SmartlingCore.php:69-87 | Each meta entry is set on the target entity, in order, inside the target-blog bracket. |
| SmartlingCore.GetMetaForOriginalEntity | inc/Smartling/Base/SmartlingCore.php:95-111 | Returns the source entity's metadata, read inside the source-blog bracket. |
| SmartlingCore.GetMetaForTargetEntity | inc/Smartling/Base/SmartlingCore.php:119-135 | Returns the target entity's metadata, read inside the target-blog bracket. |
| SmartlingCore.AppendEach | inc/Smartling/Base/SmartlingCore.php:170-175 | `$accumulator[$k][] = $x` for each x appends them in order under `k`. Other keys are unchanged and existing keys keep their order. |
| SmartlingCore.ProcessRelatedTerm | inc/Smartling/Base/SmartlingCore.php:143-179 | For a supported taxonomy on a non-widget submission, one translated id per term is appended under the content type. Otherwise nothing changes. |
| SmartlingCore.RewriteMenuItemMeta | inc/Smartling/Base/SmartlingCore.php:227-250 | `_menu_item_object_id` is replaced by its translation iff `_menu_item_type` is `taxonomy` or `post_type`. Every other meta entry is unchanged. |
| SmartlingCore.MenuItemsFrom | inc/Smartling/Base/SmartlingCore.php:207-259 | For each menu item in order, the trace reads the item's source meta in the source blog, then sets its rewritten meta on the target item in the target blog. The item's target id is appended under `nav_menu`, so the accumulator is the old one with the items' target ids appended in order. No other entry changes, and the blog context is restored. |
| SmartlingCore.ProcessRelatedMenu | inc/Smartling/Base/SmartlingCore.php:188-261 | Only `nav_menu_item` types do anything. For those, every menu item's meta is read and rewritten on its target, and the accumulator is the old one with the target ids appended to `nav_menu` in item order. No other entry changes, and the blog context is restored. |
| SmartlingCore.WithNavMenu | inc/Smartling/Base/SmartlingCore.php:307-309 | Only `settings['nav_menu']` is replaced. |
| SmartlingCore.ProcessMenuRelatedToWidget | inc/Smartling/Base/SmartlingCore.php:263-315 | The rewrite happens only for `nav_menu` on a widget submission with a non-zero menu. It saves the target widget with only the menu setting replaced by its translation. |
| SmartlingCore.ProcessFeaturedImage | inc/Smartling/Base/SmartlingCore.php:317-356 | The source meta is read. Without `_thumbnail_id` nothing else happens. Otherwise the attachment download comes first, and then `_thumbnail_id` is set to the attachment's target id in the target blog. A list value of `_thumbnail_id` is collapsed to its first element first. |
| SmartlingCore.ApplyRelated | inc/Smartling/Base/SmartlingCore.php:397-415 | A `nav_menu` submission only assigns its menu items. Any other submission has terms set for every accumulator key, in accumulator order, inside an unconditional switch to the target blog. That fails, with the blog-not-found error, iff the blog does not exist. |
| SmartlingCore.RelatedFrom | inc/Smartling/Base/SmartlingCore.php:384-394 | The related-type loop restores the blog context and only adds accumulator keys. Its trace is, per type in order, the menu items, the widget menu and one featured-image segment. The accumulator is the reference fold of each type's terms and menu target ids. |
| SmartlingCore.CollectedIds | inc/Smartling/Base/SmartlingCore.php:384-394 | Under each accumulator key, the reference fold appends, in type order, the ids that each related type contributes to that key. |
| SmartlingCore.OneFeaturedImagePerType | inc/Smartling/Base/SmartlingCore.php:384-394 | With no menu item type and no widget, the loop's trace is exactly one featured-image segment per related type. |
| SmartlingCore.PrepareRelatedSubmissions | inc/Smartling/Base/SmartlingCore.php:363-416 | The accumulator starts with `category` and `post_tag`. An exception from the loop is rethrown unchanged. After the loop, the result completes iff the submission is a menu or its target blog exists; otherwise the blog-not-found error is rethrown. On completion, the result is the accumulator the loop built, which is the reference fold over the related types, and the blog context is restored. The trace is the loop's trace followed by the application of that accumulator. |
| SmartlingCore.CheckEntityForDownload | inc/Smartling/Base/SmartlingCore.php:546-559 | The translation is downloaded iff completion is exactly 100. |
| SmartlingCore.LoadSubmissionEntityById | inc/Smartling/Base/SmartlingCore.php:526-541 | Returns the first found submission, or a not-found error iff there is none. |
| SmartlingCore.CheckedSubmissionsMembers | inc/Smartling/Base/SmartlingCore.php:596-614 | The results are exactly the status-checked found in-progress submissions; unknown ids are skipped. |
| SmartlingCore.BulkCheckByIds | inc/Smartling/Base/SmartlingCore.php:596-614 | Returns the status-checked in-progress submissions in input order, downloading each complete one, and leaves the blog context unchanged. |

## Left out

- The PHP version modelled is PHP 7: `@unserialize` of an array yields null, `strpos` with an empty needle finds nothing, and `foreach` over a live `childNodes` list follows the removed child's cleared `next` link.
- The DOM itself is not modelled. The XML document is a list of string nodes plus one source blob, and parsing/serialising are oracles.
- GutenbergBlockHelper.SortContent: describes the corrected child loop that visits every child. The PHP 7 loop, which stops after the first removed child, is `SortFirstChild` (see Findings).
- GutenbergBlockHelper.RenderOfPlace: holds for the corrected child loops and the corrected attribute merge, not for the loops as PHP 7 runs them.
- GutenbergBlockHelper.TranslationOfPlacedString: holds for the corrected child loops, not for the loops as PHP 7 runs them.
- GutenbergBlockHelper.RenderNode: uses the corrected child loop and the corrected `TranslationAttributes`; the as-written versions are `RenderNodeAsWritten` and `TranslationAttributesAsWritten`.
- GutenbergBlockHelper.ProcessTranslation: renders every block child, as the corrected loop does; the PHP 7 loop is `ProcessTranslationAsWritten`.
- GutenbergBlockHelper.SortAttributes: describes the corrected child loop, for the attribute nodes placement writes; the PHP 7 loop collects only the first of them (`SortFirstChild`).
- GutenbergBlockHelper.SortFromCollects: describes the corrected child loop; the PHP 7 loop is related to it by `AsWrittenRendersFirstChild`.
- GutenbergBlockHelper.RenderNodeOf: describes the corrected child loop and the corrected attribute merge; the PHP 7 rendering is related to it by `AsWrittenRendersFirstChild`.
- GutenbergBlockHelper.RenderChildren: describes the corrected loop that renders every block child; the PHP 7 loop renders only the first (`FirstBlock`, `SecondBlockNotRendered`).
- GutenbergBlockHelper.RenderSkipsOthers: holds for the corrected loop only.
- GutenbergBlockHelper.NonBlockChildren: describes the corrected loop, which removes every block child; under PHP 7 only the first block child is removed (`ProcessTranslationAsWritten`).
- GutenbergBlockHelper.RenderPlacedBlocks: holds for the corrected child loops, not for the loops as PHP 7 runs them.
- PHP integer keys and `array_merge`'s renumbering of them are not modelled: every key is a string.
- Floats are not modelled. `is_numeric` is its integer form (optional sign, decimal digits), and `$value += 0` yields that integer.
- XmlEncoder.CoerceValue: an integer string beyond `PHP_INT_MAX` becomes a float in PHP; the model keeps the exact integer.
- A scalar at an intermediate path segment in `structurizeArray` is replaced by a fresh array; PHP's string-offset write in that case is not modelled.
- `unserialize` of a meta string is an oracle; of an array it yields null, as under PHP 7. `getFieldProcessingParams` is a settings parameter.
- The parent class's mask, unmask, pre-send and post-receive hooks are oracles, and so are `md5`, `json_encode`, `serialize`/`base64` and `gutenberg_parse_blocks`. `register` and `loadBlockClass` (file loading) are left out.
- The `FieldsFilterHelper` flattening used by the Gutenberg helper is assumed to be the codec's `flatternArray`/`structurizeArray`; that helper is not part of this model.
- `translateAndGetTargetId`, `fastSendForTranslation`, `downloadTranslationBySubmission` and the content readers are oracles that do not throw. In the model, only metadata reads, meta writes and entity saves may throw.
- `checkSubmissionByEntity` is the `checkStatus` oracle, which returns the updated submission; its API and storage calls and its swallowed errors are not modelled.
- `sendStream`, `sendFile`, `getProjectLocales`, `handleBadBlogId`, `bulkCheckNewAndInProgress` and `checkSubmissionById` are left out (upload plumbing, caches, settings storage, queue I/O).
- The site-specific widget hooks `processMediaAttachedToWidgetSM`, `processTestimonialAttachedToWidgetSM` and `processTestimonialsAttachedToWidgetSM` (called from the related-type loop) are defined outside the modelled files and are not part of this model.
- Logging is left out everywhere, including the emergency log before `BlogNotFoundException` is rethrown.
- The widget content type's constant comes from `WordpressContentTypeHelper`, which is not part of this model; the model uses `theme_widget`.
- SmartlingCore.AttachmentOf: passes the `(int)` of the thumbnail id to `fastSendForTranslation`, where the source passes the raw meta value; the oracle is the same either way for integer ids.
- `SmartlingCore.MetaInt`: `(int)` of a string meta value and `intval` are an oracle, and `in_array`'s loose comparison against an integer meta value is not modelled.
- `LastModifiedCheckJob.FileUriEvents`: the last-modified API call on an empty submission list is modelled as the same oracle as any other request.
- In-place mutation of submissions by `statusCheck` (through references) is modelled by returning the stored submissions instead.
- `PostBasedWidgetControllerStd`, the taxonomy view template, the linked-image integration test and `CategoryMapper` are outside the modelled core: UI controller, presentation, live-database test and a constant list.

## Findings

| source | as written | input that shows it | evidently intended | confidence | as-written member | corrected member |
|---|---|---|---|---|---|---|
| inc/Smartling/Helpers/GutenbergBlockHelper.php:200-209 | `$attr` is assigned only when the flattened original attributes are non-empty, but is always passed to `array_merge`. | Original attributes `{"style": []}`: non-empty, yet they flatten to nothing, so `$attr` is undefined and `array_merge` receives null. | `$attr` starts as `[]`; the result is the structurized translated attributes (here none). | not executed | GutenbergBlockHelper.TranslationAttributesAsWritten | GutenbergBlockHelper.TranslationAttributes |
| inc/Smartling/Helpers/GutenbergBlockHelper.php:158-189 | `foreach ($node->childNodes ...)` removes each child as it goes. Under PHP 7 the iterator then follows the removed child's cleared `next` link. | A block node with chunk children `a` and `b`: only `a` is collected, so it renders as `a`. | Every child is sorted, e.g. by iterating over a copy of the list; the block renders as `ab`. | not executed | GutenbergBlockHelper.SecondChunkDropped | GutenbergBlockHelper.SortContent |
| inc/Smartling/Helpers/GutenbergBlockHelper.php:291-300 | The `foreach` over `childNodes` removes each `gutenbergBlock` child it renders, which ends the loop under PHP 7. | A string node with an empty CDATA and two block children rendering `a` and `b`: the CDATA becomes `a` and the second block stays. | Every block child is rendered and removed; the CDATA becomes `ab`. | not executed | GutenbergBlockHelper.SecondBlockNotRendered | GutenbergBlockHelper.ProcessTranslation |
