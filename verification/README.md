# AI SEO Writer — a Dafny model of its core

AI SEO Writer is a WordPress plugin that turns keywords into draft blog posts
through OpenAI. This project models the rules the plugin wraps around those
WordPress and OpenAI calls:

- **Keyword queue.** Keywords are appended to a queue. A drain visits every
  queued item once, in order. For each item it asks OpenAI for a post and
  checks that the reply has the five required keys. It then builds a draft
  post with its title, alternate titles, SEO fields and FAQ block. Within
  one drain, an item leaves the queue only when its post was created.
- **Cron guard.** A transient lock sits around the drain. A run that finds
  the lock held and unexpired does nothing.
- **Admin keyword form.** The form splits, trims and filters the keywords and
  reports how many there were.
- **OpenAI helpers.**
  - The h1→h2 rewrite of generated HTML.
  - The choice between the reprocess prompt and the new-post prompt.
  - The unwrapping of the API reply, with its four error exits.
- **Post editor handlers.**
  - Reprocessing a post appends the FAQ block at most once.
  - The internal-links handler turns a result status into a JSON reply.
- **Keyword index.** The internal-linking keyword index, its lookup, the
  identity link filter and the bulk rewrite of existing posts.
- **Link Juicer merge.** Merging a post's keywords into the Internal Link
  Juicer keyword meta.

The model is functional. The queue is a sequence of items, the keyword index
is a map, and JSON is a value tree with an encoder and a decoder. WordPress
and OpenAI appear as function parameters:

- the transport result of each request;
- the id `wp_insert_post` returns (0 for failure);
- Parsedown;
- `esc_html`;
- whether Rank Math is loaded;
- the clock.

Modules: `Wrappers`, `Text` (PHP string helpers), `Json`, `OpenAi`, `Faq`,
`Queue`, `Cron`, `Admin`, `Reprocessor`, `Linking`, `LinkJuicer`.

### What the plugin does not do

- The code has no deduplication against already processed keywords, no
  submission cooldown, no slug generation and no processed-keyword set. The
  queue appends duplicates as they come.
- The h1→h2 rewrite only touches `<h1>…</h1>` pairs whose opening tag has no
  attributes and whose text has no line break. The pattern is lazy and `.`
  does not match a line feed.
- The admin form drops the keyword `"0"` as well as empty ones. `array_filter`
  treats `"0"` as false.
- The count in the admin message is that of the parsed keywords, whatever the
  queue does with them.

## Model

| member | source | states |
|---|---|---|
| Queue.Enqueue | queue-handler.php:7-17 | the old queue is kept as a prefix; exactly one item per keyword is appended, in input order, each with the shared length, context and tone, and nothing is de-duplicated |
| Queue.EnqueueBatch | queue-handler.php:9-16 | the batch keyword list after an enqueue is the old queue's keywords followed by the new keywords |
| Queue.Without | queue-handler.php:113 | `array_diff`: a key is in the result iff it is among the required keys and not among the reply's keys |
| Queue.Validate | queue-handler.php:46-116 | a reply passes iff all five required keys are set (present and non-null); a rejection message starts with "Invalid response format from OpenAI. Missing keys: " |
| Queue.NullKeyNotListed | queue-handler.php:46-113 | a required key that is present with a null value fails validation but is not listed as missing |
| Queue.MissingKeyListed | queue-handler.php:113-114 | a key is listed as missing exactly when it is required and absent from the reply's keys |
| Queue.PostContent | queue-handler.php:86-96 | the stored content starts with the processed body; the FAQ block follows it iff `faqs` is an array, otherwise the body is stored alone |
| Queue.RequestFor | queue-handler.php:41 | every queue item is sent as a new-post prompt for its own keyword, length, context and tone, carrying the instruction for the whole batch |
| Queue.ProcessItem | queue-handler.php:39-121 | a post is created iff the request succeeds, the reply has the five keys and `wp_insert_post` returns a non-zero id; transport or JSON errors fail with their message; an id of 0 fails with "Failed to create post."; a created post is a draft carrying the batch keywords |
| Queue.CreatedPostFields | queue-handler.php:48-83 | post title = SEO title = `titles[0]`; alternate titles are `titles` without the first; the focus keyword is the item's keyword and the SEO description is the excerpt, whichever sink (Rank Math or post meta) receives them; the category and tags are the reply's, and the post is marked as generated |
| Queue.CreatedPostContent | queue-handler.php:50-96 | the stored content is the processed reply content, followed by the FAQ block and so mentioning the marker when `faqs` is an array, and alone otherwise |
| Queue.OutcomesStamped | queue-handler.php:33-108 | every post of a drain is a draft stamped with the keyword snapshot taken before the loop |
| Queue.SurvivorsAppend | queue-handler.php:35-102 | what survives a visit of two consecutive stretches is what survives each, concatenated: the drain treats items independently |
| Queue.SurvivorsAllCreated | queue-handler.php:102 | when every post is created the queue ends empty |
| Queue.SurvivorsNoneCreated | queue-handler.php:118-121 | when no post is created the queue ends exactly as it was |
| Queue.SurvivorsAreFailures | queue-handler.php:102-121 | the number of remaining items is the number of failures, and every failed item remains |
| Queue.RemoveAt | queue-handler.php:102 | `unset` of one item leaves every other item with its value and relative order |
| Queue.DrainStep | queue-handler.php:35-122 | one loop pass removes the visited item iff its post was created, keeping the survivors so far followed by the unvisited items |
| Queue.ApplyOutcomes | queue-handler.php:35-122 | the loop leaves exactly the items whose post was not created, in order, and yields the created posts in queue order; the two counts add up to the queue length |
| Queue.Drain | queue-handler.php:24-130 | the queue read at the start is visited once in order; the remaining items are those whose post was not created; every request is the item's new-post prompt with the same batch instruction; every post is a draft carrying the batch keywords |
| Queue.TransportFailureKeepsItem | queue-handler.php:41-121 | an item whose request fails in transport stays in the queue |
| Queue.InsertFailureKeepsItem | queue-handler.php:62-121 | an item whose `wp_insert_post` fails stays in the queue |
| Queue.NothingCreatedKeepsQueue | queue-handler.php:102-121 | when post creation fails for every item, the queue is unchanged and no post exists |
| Queue.NoCreatedNoPosts | queue-handler.php:62-108 | outcomes without a creation yield no posts |
| Queue.CreatedPostsStamped | queue-handler.php:108 | if every created outcome carries the batch keywords, so does every collected post |
| Queue.EnqueueKeywords | queue-handler.php:7-22 | after appending, the whole queue is drained at once; each request carries the instruction for the old keywords followed by the new ones, and the new items are requested with the shared length, context and tone |
| Cron.RunCron | aiseo-cron.php:6-23 | a held, unexpired lock makes the run do nothing; otherwise the lock is taken for 15 minutes before any work, the drain runs iff the queue is non-empty, its result is the drained queue, and the lock is released at the end |
| Cron.OverlappingRuns | aiseo-cron.php:6-22 | a second run that starts while the first run still holds the lock it took, within fifteen minutes, is skipped and leaves the queue alone |
| Admin.SplitRuns | admin-page.php:14 | `preg_split` on runs of line feeds and commas: the text is the pieces with one non-empty run of separators put back between each two neighbours; no piece holds a separator; only the first and last pieces can be empty, and the first only when the text starts with a separator; the pieces hold every other character, in order |
| Admin.KeptSplit | admin-page.php:14 | cutting at the first separator and skipping the run keeps all non-separator characters on both sides |
| Admin.TrimAll | admin-page.php:15 | `array_map('trim')` keeps one entry per piece, in order, each the trimmed piece, and trimming never brings a separator into a piece |
| Admin.TrimAllAppend | admin-page.php:15 | trimming a list works entry by entry: the trimmed concatenation is the concatenation of the trimmed lists |
| Admin.KeepTruthy | admin-page.php:16 | every kept entry is truthy (not "" and not "0") and is an entry of the input, and every truthy entry of the input is kept |
| Admin.KeepTruthyAppend | admin-page.php:16 | filtering works entry by entry, so the kept entries stay in input order: the filtered concatenation is the concatenation of the filtered lists |
| Admin.ParseKeywords | admin-page.php:13-16 | every parsed keyword is truthy, free of separators and already trimmed |
| Admin.ParseSplitsAtSeparator | admin-page.php:13-16 | cutting the text at any line feed or comma cuts the keyword list there: the keywords of the text before it followed by those of the text after it |
| Admin.ParseJoined | admin-page.php:13-16 | a list of trimmed, truthy, separator-free keywords written one per line parses back to itself, order and duplicates included |
| Admin.SplitJoined | admin-page.php:14 | splitting undoes joining with line feeds for non-empty, separator-free pieces |
| Admin.CountMessage | admin-page.php:28 | the message is the decimal count of the keywords, with no leading zero, followed by " keywords have been added to the queue for processing." |
| Admin.CountMessageExact | admin-page.php:28 | two keyword lists get the same message iff they have the same number of keywords |
| Admin.EmptyFormYieldsNothing | admin-page.php:13-16 | an empty submission yields no keyword: its single empty piece is dropped as falsy |
| Admin.Submit | admin-page.php:13-28 | the keywords handed on are the parsed keywords, the message counts exactly them, and every one is truthy |
| Admin.SubmitJoined | admin-page.php:13-28 | submitting trimmed, truthy, separator-free keywords one per line hands on exactly those keywords and reports their number in decimal |
| Text.Trim | admin-page.php:15 | the result is the input with a run of PHP `trim` whitespace removed from each end, and it neither starts nor ends with such whitespace, so nothing more could be trimmed |
| Text.TrimOfPadded | admin-page.php:15 | trimming removes exactly the surrounding whitespace from a word that is free of it at both ends |
| Text.NatToStringRoundTrip | admin-page.php:28 | the decimal rendering of a count reads back as that count |
| Text.CanonicalUnique | admin-page.php:28 | two decimal numerals without a leading zero that read as the same number are the same text, so a count has exactly one rendering |
| Text.TrimIdempotent | admin-page.php:15 | trimming a trimmed string changes nothing |
| Text.JoinContainsEach | openai-integration.php:43 | `implode` keeps every element in the joined text |
| OpenAi.FindClose | openai-integration.php:17 | the lazy match ends at the first `</h1>` (either case) after the opener with no line feed before it; when there is none, every closer is preceded by a line feed |
| OpenAi.DemoteH1 | openai-integration.php:17 | the rewrite keeps the length; a changed position is the letter or digit of an `<h1>` or `</h1>` tag of the input, where `1` becomes `2` or `H` becomes `h` |
| OpenAi.DemoteAfterPlainText | openai-integration.php:17 | text in which no match starts (no `<h1>` opener, or only openers with no `</h1>` before the next line feed) is kept as it is, and the rewrite of what follows it is the rewrite of that rest on its own |
| OpenAi.DemoteWithoutMatch | openai-integration.php:17 | text where no `<h1>` opener reaches a `</h1>` before a line feed is left exactly as it is |
| OpenAi.UnclosedLineKept | openai-integration.php:17 | `<h1>a`, a line feed, then `b</h1>` is left unchanged: a heading whose text breaks the line is no match |
| OpenAi.DemoteHeadingAfterText | openai-integration.php:17 | a heading anywhere in the text is demoted: after any text without an `<h1>` opener, `<h1>X</h1>` (X free of line feeds and of `</h1>`) becomes `<h2>X</h2>`, the text before it is kept and the rest is rewritten on its own |
| OpenAi.TagShift | openai-integration.php:17 | a tag seen in a suffix of the text is a tag of the whole text at the shifted position |
| OpenAi.DemoteWholeTag | openai-integration.php:17 | `<h1>X</h1>` in either case, with X free of line feeds and of any `</h1>` closer, becomes `<h2>X</h2>` with X kept, markup included, and the text after it is rewritten on its own |
| OpenAi.DemoteKeepsMarkup | openai-integration.php:17 | `<h1>a<em>b</em></h1>` becomes `<h2>a<em>b</em></h2>` for any plain texts `a` and `b`: inline markup in a heading is kept |
| OpenAi.FindCloseFirst | openai-integration.php:17 | the shortest match is taken: the first closer, reached before any line feed, ends the heading |
| OpenAi.DemoteWithoutOpener | openai-integration.php:17 | text without an `<h1>` opener is left exactly as it is |
| OpenAi.SelectPrompt | openai-integration.php:43-69 | the reprocess prompt is chosen iff the keyword argument is an array with a set `content` entry; both prompts carry the batch keyword instruction |
| OpenAi.ReprocessArgumentSelectsReprocess | post-reprocessor.php:98-104 | the editor's `content` and `additional_prompt` array selects the reprocess prompt with both fields |
| OpenAi.KeywordSelectsNewPost | openai-integration.php:55-57 | a plain keyword selects the new-post prompt with that keyword |
| OpenAi.InstructionMentionsKeyword | openai-integration.php:43 | the keyword instruction names every batch keyword |
| OpenAi.Unwrap | openai-integration.php:148-181 | a transport failure is reported with its message; an undecodable body gives the body error; missing arguments are reported iff the body decodes but the path is not set; set arguments that do not decode give the arguments error, and ones that decode give success; the returned text decodes to the same value as the arguments |
| OpenAi.UnwrapEnvelope | openai-integration.php:165-181 | a well-formed reply carrying encoded content unwraps to that encoded content |
| OpenAi.UnwrapBadArguments | openai-integration.php:171-177 | arguments that are not JSON are reported as such |
| OpenAi.RequestContent | openai-integration.php:148-181 | a success is the decoded arguments; a failure carries the message of the error exit taken |
| Json.DecodeEncode | openai-integration.php:171-181 | decoding the encoding of any value gives the value back |
| Faq.Block | queue-handler.php:86-91 | the block starts with the FAQ heading and mentions "Frequently Asked Questions" |
| Faq.BlockRoundTrip | queue-handler.php:87-91 | the rendered block parses back to the escaped question and answer pairs, in FAQ order, when the escaped texts hold no `<` |
| Faq.ParseEntriesRoundTrip | post-reprocessor.php:117-121 | the h3/p entries read back as the pairs they were built from, when the texts hold no `<` |
| Reprocessor.FaqGuard | post-reprocessor.php:112-128 | the result starts with the processed content; it changes only when the marker is absent and `faqs` is an array, and then gains exactly the FAQ block; when `faqs` is an array the result mentions the marker |
| Reprocessor.FaqGuardOnce | post-reprocessor.php:113-128 | guarding content that already gained a block changes nothing, whatever the FAQs: at most one block is ever appended |
| Reprocessor.FaqGuardSkipsMarked | post-reprocessor.php:113-128 | content already mentioning the marker is left as it is |
| Reprocessor.Reprocess | post-reprocessor.php:98-145 | the request is the reprocess prompt; the post is updated iff the request succeeds and the reply sets `content`, and the update is the processed reply content passed through the FAQ guard, with a success reply carrying it; failures reply with their message; a reply without content gives "Invalid response from OpenAI." |
| Reprocessor.ReprocessFaqAtMostOnce | post-reprocessor.php:109-132 | an update starts with the processed reply content; when that content already mentions the FAQ marker it is stored as it is, and when the reply's `faqs` is an array the update mentions the marker |
| Reprocessor.TransportFailureReply | post-reprocessor.php:141-143 | a transport failure leaves the post alone and replies with "Error sending request to OpenAI API: " and the error |
| Reprocessor.StatusReply | post-reprocessor.php:159-170 | a success reply iff the status is exactly "success" or "info"; the message is always passed on; for "success" the reply's content is the result's own content, and for any other status the reply has none |
| Linking.UpdateKeywordIndex | internal-linking.php:17-43 | revisions, autosaves and falsy keywords leave the index alone; otherwise the keyword points at the post and no other row changes |
| Linking.KeywordsForLinking | internal-linking.php:50-63 | the lookup returns exactly the rows of other posts, unchanged |
| Linking.KeywordChangeKeepsOldRow | internal-linking.php:32-43 | after a keyword change both the old and the new keyword point at the post |
| Linking.IndexedKeywordOffered | internal-linking.php:35-59 | an indexed keyword is offered to every other post, linking to its post, and never to that post itself |
| Linking.UpdateExistingPosts | internal-linking.php:76-104 | a post is written exactly when its content is truthy and the filter changes it, and the write carries the filtered content |
| Linking.IdentityFilterWritesNothing | internal-linking.php:66-99 | with the current filter the bulk rewrite writes no post |
| LinkJuicer.ArrayMerge | link-juicer-integration.php:18 | `array_merge` of lists: the values of both in order, renumbered from zero |
| LinkJuicer.DedupFrom | link-juicer-integration.php:18 | a value is kept iff it occurs and was not seen before |
| LinkJuicer.UniqueValues | link-juicer-integration.php:18 | `array_unique` keeps exactly the first occurrence of each value, as the reference de-duplication defines it |
| LinkJuicer.DedupDistinct | link-juicer-integration.php:18 | the merged list has no repeated keyword |
| LinkJuicer.DedupAppend | link-juicer-integration.php:18 | first occurrences of a concatenation are those of the front, then those of the back not already seen |
| LinkJuicer.DedupAbsorbs | link-juicer-integration.php:18 | merging the same AI keywords into an already merged list gives the same values |
| LinkJuicer.Merged | link-juicer-integration.php:13-18 | a non-array meta counts as empty; the merged values are the first occurrences of the existing keywords followed by the AI keywords |
| LinkJuicer.MergeKeepsAll | link-juicer-integration.php:18 | every existing keyword and every AI keyword is in the merged list, with no repeats |
| LinkJuicer.AddKeywordsAsWritten | link-juicer-integration.php:2-38 | an update happens exactly when there are AI keywords, no error, and the merged array differs, keys included, from the stored one; it carries the merged list, whose values are the first occurrences of the stored values followed by the AI keywords |
| LinkJuicer.AsWrittenRewritesUnchangedKeywords | link-juicer-integration.php:18-22 | existing [a, b] with AI keywords [a, c] writes keys 0, 1, 3; re-running writes again with keys 0, 1, 2 though the keyword values are the same |
| LinkJuicer.AddKeywords | link-juicer-integration.php:8-30 | an update happens exactly when there are AI keywords, no error, and the merge changes the keyword values; it carries the merged list |
| LinkJuicer.NewNameWrites | link-juicer-integration.php:8-30 | an AI keyword not yet stored is always written, and the written list holds it |
| LinkJuicer.KnownNamesNoWrite | link-juicer-integration.php:8-30 | when every AI keyword is already stored, nothing is written |
| LinkJuicer.AddKeywordsSettles | link-juicer-integration.php:18-21 | re-running the corrected update with the same AI keywords writes nothing |

## Left out

- The OpenAI HTTP call, the prompt wording, the model parameters and the
  timeout are not modelled. They are network I/O. The request is a parameter
  returning the response body or a transport error, and each prompt is a
  record of its inputs.
- Parsedown is not modelled. It is a third-party library and is passed in as
  a function.
- `esc_html`, `sanitize_textarea_field`, `sanitize_text_field` and
  `wp_kses_post` are not modelled. `esc_html` is a parameter, and the others
  are taken to have been applied to their inputs.
- WordPress persistence is not modelled: options, transients, post meta,
  terms, `wp_create_category` ids, `wp_set_post_tags`, Rank Math and the
  `$wpdb` table. Their state is plain sequences, maps and records. The post
  keeps the category name rather than its id.
- `aiseo_log`, the status options and `aiseo_verify_link_juicer_keywords` are
  not modelled. They only log or display.
- Cron scheduling is not modelled. This covers the hourly event and the
  self-HTTP call to the cron script (queue-handler.php:132-142).
- The lock expiring in the middle of a long run is not modelled. The clock is
  read once per run.
- The race between `get_transient` and `set_transient` is not modelled
  (aiseo-cron.php:6-8). Each run is one atomic step. Two runs that both read
  the lock as absent before either sets it would both drain the queue, so
  the lock does not make runs single-flight.
- A fatal error between `set_transient` and `delete_transient` is not
  modelled (aiseo-cron.php:8-19). In the plugin the lock then stays held
  until it expires fifteen minutes later. In the model every run that takes
  the lock releases it.
- Overlapping drains are not modelled. Each drain reads the queue once
  (queue-handler.php:31) and, after every post it creates, writes back that
  snapshot minus the items it removed (queue-handler.php:102-103). Two drains
  can overlap, for instance a form submission during a cron run. Then:
  - an item present in both snapshots gets two posts;
  - an item added after one drain read the queue can be erased by that
    drain's next write-back, post or no post.

  The model runs each drain alone on the queue it is given.
- `aiseo_enqueue_keywords` drains the queue directly. That path does not take
  the cron lock, and the model does not add one.
- `aiseo_generate_posts`, `aiseo_add_internal_links_to_post` and
  `aiseo_add_internal_links_to_all_posts` are not modelled. Their code is not
  part of this model:
  - the admin form's count does not depend on the first;
  - the second is the status result the internal-links handler receives;
  - the third is the drain's final call.
- Nonces, capability checks and the page markup are not modelled.
- JSON floats, exponents, surrogate pairs and big-number handling are not
  modelled. Numbers are integers and strings hold code points. `Json.Decode`
  rejects `1.5`, `1e3` and the escape pair `\ud83d\ude00`, which PHP's
  `json_decode` accepts. A reply body holding one of them takes the
  `BodyNotJson` exit in the model, and arguments holding one take the
  `ArgumentsNotJson` exit, where the plugin would go on.
- The nesting-depth limit of `json_decode` is not modelled. PHP's default
  depth is 512 (openai-integration.php:157, :171). Deeper input makes PHP
  return null with "Maximum stack depth exceeded", so the plugin takes the
  body-error or arguments-error exit. `Json.Decode` has no limit and decodes
  such input.
- JSON objects are kept as ordered member lists, with the last duplicate key
  winning on lookup. Json.Elements, which models `foreach` over a decoded
  array, visits every member, duplicates included. PHP's `json_decode(…, true)`
  keeps one entry per key, at its first position and with its last value. So
  for a `faqs` object with the key `"a"` twice, the plugin writes one FAQ
  entry (the second pair), where Faq.Block writes both pairs
  (queue-handler.php:88, post-reprocessor.php:118). Only the error text "Syntax error" of
  `json_last_error_msg` is modelled.
- PHP 8 type errors are not modelled. These include `array_keys` on a
  non-array reply (queue-handler.php:113) and string offsets on a FAQ entry
  that is not an array. In the model, a non-array reply counts as having no
  keys: only that item fails, and the drain goes on. In the plugin, the
  `TypeError` that `array_keys` throws is not an `Exception`, so the
  `catch` at queue-handler.php:118 does not stop it. It ends the whole
  drain, leaves the later items unvisited and, on the cron path, leaves the
  lock held until it expires.
- In the Link Juicer merge, a `WP_Error` term result would reach `implode`
  before the guard. The model follows the guard and writes nothing.
- Link Juicer meta arrays with string keys or non-string values are not
  modelled.
- Collation of the index table's unique key is not modelled. Keywords are
  compared exactly, where MySQL may compare them case-insensitively.
- `update_post_meta` returning false is not modelled. It only changes a log
  line.
- Json.SkipWs: states only that the rest is no longer than the input. The
  round-trip lemmas use the encoder's whitespace-free output instead.
- Faq.BlockRoundTrip: holds only when the escaped question and answer texts
  contain no `<`. `esc_html` output has none in practice.
- Faq.ParseEntriesRoundTrip: likewise requires that no question or answer
  text contains `<` (PairsNoAngle). The reader stops each text at the next
  `<`.

## Findings

| source | as written | input that shows it | evidently intended | confidence | as-written member | corrected member |
|---|---|---|---|---|---|---|
| link-juicer-integration.php:18-22 | the "only if there are changes" test compares the merged array with the stored one strictly, keys included, although `array_unique` leaves gaps in the keys it keeps and `array_merge` renumbers them | stored `[0 => "a", 1 => "b"]` and AI keywords `["a", "c"]` store `[0 => "a", 1 => "b", 3 => "c"]`; a second run with the same keywords stores `[0 => "a", 1 => "b", 2 => "c"]` although no keyword changed | update only when the keyword list changes, so a re-run writes nothing | not executed | LinkJuicer.AsWrittenRewritesUnchangedKeywords | LinkJuicer.AddKeywords |
