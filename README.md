# Streaming event decoder and grouped node view of the Deepr frontend

The Deepr frontend starts a research or council session with a POST request
and reads the response body as a stream of server-sent events. The body is
text that arrives in chunks. Each complete line of the form `data: <json>` is
one event and is handed to the caller's `onEvent`. An event whose `type` is
`error` ends the stream. If reading the body fails part-way, one synthetic
error event is delivered. If the request itself fails, one error event is
delivered and nothing else. `streamSuperChat` and `streamCouncil` share the same
read loop, apart from comments and the arguments of one log message.

The events become the nodes of a session. The `NodeTree` component turns them
into four groups:

- the first `plan` node;
- every `research` node, in arrival order;
- every `critique` node, in arrival order;
- the first `synthesis` node.

It shows the found or non-empty groups in that fixed order. Below them it
shows a status indicator when the `status` prop is a non-empty string other
than `done`.

The project has four modules:

- `Lines` (`lines.dfy`): JavaScript's `split('\n')`, its inverse `join('\n')`,
  and the `LineSplitter` class. The class models the loop's `buffer` variable,
  which carries an unterminated line from one chunk to the next.
- `StreamDecoder` (`decoder.dfy`):
  - the per-line rules: blank-line skip with JavaScript's `trim`, the
    `data: ` prefix, parse, deliver, and stop on `error`;
  - the read loop, as the methods `DeliverLines`, `ReadBody` and `ReadStream`;
  - `Delivered`, the specification function those methods are proved
    against, with lemmas about it.
- `Events` (`events.dfy`): a decoded event, reduced to its `type` tag and its
  string attributes, and the synthetic error event.
- `NodeTree` (`nodetree.dfy`): the grouping, the section order and visibility,
  and the status indicator.

`Wrappers` (`wrappers.dfy`) holds the `Option` datatype.

`JSON.parse` is a parameter `parse: string -> Option<Event>`. `None` stands for
text that does not parse, which the source logs and skips. A decoded value that
is not an object with a `type` (for instance `null`) is an event whose tag is
`None`. The source behaves the same way for it: `onEvent` receives the value,
and reading `.type` on `null` throws inside the same `try` that catches a parse
failure, so the loop goes on. The transport is a `Response` value: either the
request failed with a message, or the body yielded a list of already-decoded
text chunks and then ended normally or with a read failure.

## Model

| member | source | states |
|---|---|---|
| Lines.Split | deepr/frontend/src/api.js:121 | `split('\n')` returns at least one piece, no piece holds a newline, and joining the pieces with newlines gives back the input |
| Lines.SplitJoin | deepr/frontend/src/api.js:121 | splitting the join of newline-free pieces gives back those pieces (split and join are inverses) |
| Lines.LinesDecompose | deepr/frontend/src/api.js:121-122 | the complete lines, each followed by its newline, then the pending text rebuild the input; neither holds a newline |
| Lines.LinesUnique | deepr/frontend/src/api.js:121-122 | any newline-free lines and newline-free remainder that rebuild a text are exactly its complete lines and its pending text |
| Lines.LinesAppend | deepr/frontend/src/api.js:120-122 | the lines completed by `a + b` are those of `a` followed by those completed once `b` is appended to what `a` left pending; the new pending text is the pending text of that |
| Lines.NoNewlineNoLines | deepr/frontend/src/api.js:120-122 | text without a newline completes no line and stays pending in full |
| Lines.LineSplitter.constructor | deepr/frontend/src/api.js:113 | the buffer starts empty, with nothing received and no line emitted |
| Lines.LineSplitter.Feed | deepr/frontend/src/api.js:120-122 | appends the chunk and returns the complete lines of buffer plus chunk. Afterwards the emitted lines and the buffer are the complete lines and the pending text of everything received, whatever the chunk boundaries were. The buffer never holds a newline. An empty chunk emits nothing and leaves the buffer unchanged |
| StreamDecoder.TrimStart | deepr/frontend/src/api.js:125 | the result is a suffix of the input; every dropped character is ECMAScript white space or a line terminator; the result does not start with one |
| StreamDecoder.TrimEnd | deepr/frontend/src/api.js:125 | the result is a prefix of the input; every dropped character is white space or a line terminator; the result does not end with one |
| StreamDecoder.TrimEmptyIffBlank | deepr/frontend/src/api.js:125 | `line.trim() === ''` holds exactly when every character of the line is white space or a line terminator |
| StreamDecoder.DataLineNotBlank | deepr/frontend/src/api.js:125-126 | a line starting with `data: ` is never skipped as blank |
| StreamDecoder.DecodeLine | deepr/frontend/src/api.js:125-134 | a line yields an event only if it is not blank and starts with `data: `; skipped and unparsable lines yield nothing |
| StreamDecoder.DecodeDataLine | deepr/frontend/src/api.js:126-128 | a `data: ` line yields exactly the parse of the text after its first six characters |
| StreamDecoder.DecodeLines | deepr/frontend/src/api.js:124-135 | decoding a batch of lines halts only on an error event, which is then the last event; no earlier event is an error; at most one event per line |
| StreamDecoder.HaltedIffErrorLine | deepr/frontend/src/api.js:129-130 | a batch halts if and only if one of its lines decodes to an error event |
| StreamDecoder.DecodeLinesWithoutError | deepr/frontend/src/api.js:124-135 | without an error line, every decoded line is delivered in order and the batch does not halt |
| StreamDecoder.DecodeLinesUpToError | deepr/frontend/src/api.js:124-135 | with the first error line at position k, exactly the events of lines 0..k are delivered and the batch halts |
| StreamDecoder.DecodeLinesAppend | deepr/frontend/src/api.js:124-130 | decoding `a + b` is decoding `a`, then decoding `b` only if `a` did not halt |
| StreamDecoder.DeliverLines | deepr/frontend/src/api.js:124-135 | the `for` loop over one batch delivers exactly the events of `DecodeLines` and reports whether it returned on an error |
| StreamDecoder.RequestErrorMessage | deepr/frontend/src/api.js:145 | the request error message is never empty; it is the error's message when that is non-empty |
| StreamDecoder.Delivered | deepr/frontend/src/api.js:101-146 | in everything one call delivers, only the last event can be an error; a failed request delivers exactly one error event carrying the request's message |
| StreamDecoder.HaltedIsFinal | deepr/frontend/src/api.js:130 | once the text read so far holds an error event, more text changes nothing that is decoded |
| StreamDecoder.ErrorEventEndsStream | deepr/frontend/src/api.js:130 | after an error event, neither later chunks nor how the stream ends change what is delivered |
| StreamDecoder.PendingTextDropped | deepr/frontend/src/api.js:117-122 | an unterminated final fragment, even a complete `data: ` line, is never delivered |
| StreamDecoder.ReadFailureAddsOneEvent | deepr/frontend/src/api.js:137-139 | a failed read delivers what an orderly end would have delivered, plus one `Stream error: ` event, unless an error event had already ended the stream |
| StreamDecoder.ChunkBoundariesIrrelevant | deepr/frontend/src/api.js:120-124 | the specified events depend only on the concatenated text, not on how it was split into chunks. This follows from `Delivered` reading only that text; that the loop itself honours it is the contract of `ReadBody` together with that of `Lines.LineSplitter.Feed` |
| StreamDecoder.DeliveredAfterReads | deepr/frontend/src/api.js:116-139 | once reading stops after n chunks, either at the end or on an error event, the delivered events are determined by the first n chunks and by how the stream ended |
| StreamDecoder.ReadBody | deepr/frontend/src/api.js:111-142 | the read loop delivers exactly `Delivered`; it reads chunks until the body ends or an error event arrives, and it stops at the first chunk after which an error event has been delivered |
| StreamDecoder.ReadStream | deepr/frontend/src/api.js:101-146 | one streaming call delivers exactly `Delivered`; a failed request reads no chunk |
| Events.ErrorEvent | deepr/frontend/src/api.js:139 | a synthetic error event has type `error` and carries the message |
| NodeTree.Find | deepr/frontend/src/components/NodeTree.jsx:15 | `find` yields nothing exactly when no node has the type, and otherwise the first node that has it |
| NodeTree.Filter | deepr/frontend/src/components/NodeTree.jsx:16-17 | `filter` yields an order-preserving subsequence of the nodes whose members are exactly the nodes of the type |
| NodeTree.FilterIsLongest | deepr/frontend/src/components/NodeTree.jsx:16-17 | no subsequence made only of nodes of the type is longer than the filter, so none is left out |
| NodeTree.FilterKeepsCount | deepr/frontend/src/components/NodeTree.jsx:16-17 | the filter keeps each node of the type exactly as often as it occurs, and no other node |
| NodeTree.FindConcat | deepr/frontend/src/components/NodeTree.jsx:14-18 | the first match in `a + b` is the first match in `a`, or else the first in `b` |
| NodeTree.FilterConcat | deepr/frontend/src/components/NodeTree.jsx:16-17 | filtering distributes over concatenation |
| NodeTree.UnknownTypeInNoGroup | deepr/frontend/src/components/NodeTree.jsx:14-18 | a node of a type the view does not know is in no group |
| NodeTree.UnknownTypeIgnored | deepr/frontend/src/components/NodeTree.jsx:14-18 | inserting a node of an unknown type anywhere leaves every group unchanged |
| NodeTree.GroupAppend | deepr/frontend/src/components/NodeTree.jsx:14-18 | when a node arrives, a first plan, root or synthesis node already found is kept, or the new node becomes it if it has that type; the research and critique lists grow only by a node of their type, at the end |
| NodeTree.FindAppend | deepr/frontend/src/components/NodeTree.jsx:15 | the first match after appending a node is the old one, or else the node if it matches |
| NodeTree.FilterAppend | deepr/frontend/src/components/NodeTree.jsx:16-17 | filtering after appending a node extends the old filter by the node exactly when it matches |
| NodeTree.SectionsInFixedOrder | deepr/frontend/src/components/NodeTree.jsx:23-92 | sections appear in the order plan, research, critique, synthesis. The plan and synthesis sections show exactly when that node was found, and render it. The research and critique sections show exactly when their list is non-empty, and render that list |
| NodeTree.SectionsIndependentOfArrivalOrder | deepr/frontend/src/components/NodeTree.jsx:14-92 | the same nodes arriving in another order show the same kinds of sections (a plan section exactly when one is shown before, and so on), and the research and critique sections hold the same multiset of nodes. With two nodes of type `plan` or `synthesis`, the node shown in that section can differ, because it is the first to arrive |
| NodeTree.ShowsStatus | deepr/frontend/src/components/NodeTree.jsx:95 | `status && status !== 'done'`, written with JavaScript truthiness, holds exactly when the prop is a string that is neither empty nor `done`: not for an absent or `null` status |
| NodeTree.Truthy | deepr/frontend/src/components/NodeTree.jsx:95 | definition: JavaScript truthiness of the `status` prop; its use is stated by `ShowsStatus` |
| NodeTree.Group | deepr/frontend/src/components/NodeTree.jsx:14-18 | definition: the five groups, by `Find` and `Filter`; stated by `GroupAppend`, `UnknownTypeIgnored`, `UnknownTypeInNoGroup` and `SectionsIndependentOfArrivalOrder` |
| NodeTree.Sections | deepr/frontend/src/components/NodeTree.jsx:20-92 | definition: the sections the markup shows, in markup order; stated by `SectionsInFixedOrder` |
| NodeTree.PlanPart | deepr/frontend/src/components/NodeTree.jsx:23-34 | definition: `{plan && (...)}`; stated by `SectionsInFixedOrder` |
| NodeTree.ResearchPart | deepr/frontend/src/components/NodeTree.jsx:37-56 | definition: `{research.length > 0 && (...)}`; stated by `SectionsInFixedOrder` |
| NodeTree.CritiquePart | deepr/frontend/src/components/NodeTree.jsx:59-78 | definition: `{critiques.length > 0 && (...)}`; stated by `SectionsInFixedOrder` |
| NodeTree.SynthesisPart | deepr/frontend/src/components/NodeTree.jsx:81-92 | definition: `{synthesis && (...)}`; stated by `SectionsInFixedOrder` |
| NodeTree.Render | deepr/frontend/src/components/NodeTree.jsx:5-100 | definition: the sections of the grouped nodes and whether the status indicator shows; stated by `SectionsInFixedOrder`, `ShowsStatus` and `RenderIgnoresUnknownNodes` |
| NodeTree.RenderIgnoresUnknownNodes | deepr/frontend/src/components/NodeTree.jsx:5-100 | a node of an unknown type, inserted anywhere in the props, leaves the rendered view unchanged |
| NodeTree.HasType | deepr/frontend/src/components/NodeTree.jsx:14-18 | definition: `n.type === kind`, the callback of all five `find` and `filter` calls; stated by `Find`, `Filter` and `GroupAppend` |
| Lines.CompleteLines | deepr/frontend/src/api.js:121-122 | definition: the `lines` array after `lines.pop()`; stated by `LinesDecompose`, `LinesUnique`, `LinesAppend` and `LineSplitter.Feed` |
| Lines.Pending | deepr/frontend/src/api.js:121-122 | definition: the value `lines.pop()` returns, which becomes the new `buffer`; stated by `LinesDecompose`, `LinesUnique`, `LinesAppend` and `LineSplitter.Feed` |
| StreamDecoder.Trim | deepr/frontend/src/api.js:125 | definition: `line.trim()` as `TrimEnd` after `TrimStart`; stated by `TrimStart`, `TrimEnd` and `TrimEmptyIffBlank` |
| StreamDecoder.StartsWith | deepr/frontend/src/api.js:126 | definition: `line.startsWith(prefix)`; stated by `DataLineNotBlank`, `DecodeLine` and `DecodeDataLine` |
| Events.IsError | deepr/frontend/src/api.js:130 | definition: `data.type === 'error'`; stated by `Events.ErrorEvent`, `StreamDecoder.DecodeLines`, `StreamDecoder.HaltedIffErrorLine` and `StreamDecoder.Delivered` |

The read loop of `streamCouncil` (deepr/frontend/src/api.js:180-223) is the
same code as that of `streamSuperChat`, apart from comments and the arguments of
the `console.error` call for an unparsable line (deepr/frontend/src/api.js:111-146).
It also has the same outcomes for a failed read and a failed request. The
single model covers both.

## Left out

- The HTTP request itself is not modelled: the URL, the headers, the bearer token read from `localStorage` and the JSON request body. These are I/O.
- The two request-failure messages the source builds are not modelled. One is `HTTP <status>: <text>`, for a response that is not `ok`. The other is `Response body is null`, for a missing body. Both enter the model only as the `reason` of `RequestFailed`.
- `TextDecoder`'s byte-to-text decoding is not modelled: chunks are already-decoded strings. With `stream: true` a multi-byte character split across chunks is decoded whole, so the text the loop sees is the same.
- `reader.releaseLock()` is left out, as is every `console.error` log. Neither changes what is delivered.
- `onEvent` is not modelled as code. The model records the sequence of events handed to it. The model assumes it does not throw; if it did, the source's inner `catch` would swallow the exception and the loop would go on.
- `Stream error: ${streamError.message}` is modelled as the prefix `Stream error: ` followed by the read failure's reason. An exception without a message, which JavaScript would print as `undefined`, is not distinguished.
- `JSON.parse` is the `parse` parameter. Which texts parse, and how a JSON object maps to a tag and attributes, are not modelled.
- The other REST helpers in deepr/frontend/src/api.js are not part of this model. They are thin wrappers around HTTP calls.
- The rest of the repository is not part of this model: the backend, the other components, and the session state that consumes the events.
- The markup, styles, icons and markdown rendering of each `NodeTree` section are left out. The model records only which sections appear, in which order, and which nodes each renders.
- The `root` node is found by the grouping (deepr/frontend/src/components/NodeTree.jsx:14) but no section renders it. The model computes it too, and `Sections` never reads it.
- `NodeTree`'s nodes are assumed to be JavaScript objects. A `null` node would make `n.type` at deepr/frontend/src/components/NodeTree.jsx:14 throw, so the component would not render at all. The model has no case for it. The code that builds the `nodes` prop is not part of this model. An `Event` with no tag, in `NodeTree`, stands only for an object without a string `type`.
- The `status` prop is modelled only as absent, `null` or a string. Other JavaScript values, such as a number or a boolean, are not modelled. The code that supplies the prop is not part of this model.
- Node fields other than `type` (`id`, `model`, `content`) are left out. These are the map of attributes in `Events.Event`, which the view passes through unchanged.
- JavaScript strings are UTF-16 code units, while Dafny `char` is a Unicode scalar value. Every character `trim` removes lies in the Basic Multilingual Plane, so the two agree on the blank-line test.
