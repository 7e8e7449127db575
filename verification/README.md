# lastAssistantTextMessageContent, modelled in Dafny

This project models `lastAssistantTextMessageContent` in `src/inngest/utils.ts`. The
function reads the ordered message list (`output`) of an agent run and answers the
text of the run's final assistant reply:

- it finds the last message whose role is exactly `"assistant"`, using `findLastIndex`;
- if there is no such message, the index is -1 and `output[-1]` reads `undefined`;
- if that message's content is absent or falsy, the result is `undefined`;
- a string content is returned as it is;
- a list of parts is returned as the in-order concatenation of each part's `text`
  (`map((c) => c.text).join("")`).

Files:

- `wrappers.dfy`: `Option`, where `None` stands for `undefined`.
- `js_array.dfy`: the JavaScript array behaviour the function relies on.
  `FindLastIndex` answers -1 when nothing matches. `At` reads `undefined` outside the
  array's bounds, -1 included. `Join` with the empty separator renders `undefined`
  as "".
- `messages.dfy`: the data model. A `Message` is a role string plus optional
  `Content`. `Content` is `Str(string)` or `Parts(seq<Part>)`, and each `Part` has an
  optional `text`. `Truthy` is JavaScript truthiness of a content value: the empty
  string is falsy, and every array is truthy, even an empty one.
- `agent_utils.dfy`: the function itself and the lemmas about it.

The role is kept as a string, and `IsAssistant` compares it with `"assistant"`, just
as `===` does. The search looks only at the role. An assistant message that carries
no `content` field is still selected, and the result is then `undefined`.

The source's function is pure: it does not change `result.output`, and equal inputs
give equal outputs. The model gets both by construction, because Dafny functions over
immutable values cannot change their arguments and are deterministic.

## Model

| member | source | states |
|---|---|---|
| JsArray.FindLastIndex | src/inngest/utils.ts:12-14 | Answers -1 exactly when no message satisfies the predicate. Otherwise it answers an index whose message satisfies the predicate, with no later message satisfying it. |
| JsArray.JoinAppend | src/inngest/utils.ts:19 | Joining a concatenation of lists equals concatenating their joins, so `join("")` keeps element order. |
| JsArray.JoinSingleton | src/inngest/utils.ts:19 | A one-element list joins to that element's rendering, with `undefined` rendered as "". |
| JsArray.JoinPlacesEach | src/inngest/utils.ts:19 | Element k's rendering occurs in the joined string at the offset given by the length of the join of the elements before it. |
| JsArray.JoinEmptyIff | src/inngest/utils.ts:19 | The join is "" if and only if every element renders as "". |
| AgentUtils.ContentText | src/inngest/utils.ts:16-20 | The result is `undefined` exactly when the content is falsy (absent or ""). A truthy string is answered unchanged, and a parts list is answered as the join of its texts. |
| AgentUtils.LastAssistantTextMessageContent | src/inngest/utils.ts:11-21 | With no assistant message (the empty output included), the result is `undefined`. Otherwise the result depends only on the content of the last assistant message. |
| AgentUtils.UndefinedIff | src/inngest/utils.ts:12-20 | The result is `undefined` if and only if there is no assistant message, or the last assistant message has falsy content. |
| AgentUtils.SelectsLastAssistant | src/inngest/utils.ts:12-15 | Take `before + [m] + after`, where m is an assistant message and `after` holds none. The result depends on m's content alone, so `before` and `after` have no effect. |
| AgentUtils.FalsyContentIsUndefined | src/inngest/utils.ts:16-20 | If the last assistant message's content is absent or the empty string, the result is `undefined`, not "". |
| AgentUtils.StringContentIsResult | src/inngest/utils.ts:16-18 | If the last assistant message's content is a non-empty string, the result is exactly that string. |
| AgentUtils.PartsContentIsJoined | src/inngest/utils.ts:19 | If the last assistant message's content is a list of parts, the result is the join of the parts' texts, and a part without text contributes "". |
| AgentUtils.PartTextInOrder | src/inngest/utils.ts:19 | In that join, part k's text starts right where the joined texts of parts 0..k-1 end. |
| AgentUtils.TextlessPartsGiveEmptyString | src/inngest/utils.ts:16-19 | A parts list with no non-empty text gives "", not `undefined`. This covers the empty list: an empty array is truthy. |
| AgentUtils.AppendNonAssistantUnchanged | src/inngest/utils.ts:12-14 | Appending a message whose role is not "assistant" leaves the result unchanged. |
| AgentUtils.AppendNonAssistantsUnchanged | src/inngest/utils.ts:12-14 | Appending any list of non-assistant messages leaves the result unchanged. |
| AgentUtils.AppendAssistantString | src/inngest/utils.ts:12-18 | Appending an assistant message whose content is a non-empty string s makes the result s. |
| AgentUtils.PrefixIrrelevant | src/inngest/utils.ts:12-15 | If the output holds an assistant message, putting any messages in front of it does not change the result. |

## Left out

- `getSandbox` (src/inngest/utils.ts:4-8) is left out. It is a single call that reconnects to the remote sandbox service and contains no logic of its own.
- `src/inngest/functions.ts` is left out. Its lines 10-18 run one summariser agent once through an external language-model service and return that service's output. It does not call `lastAssistantTextMessageContent`.
- `src/trpc/*` and `src/app/*` are left out. They are RPC transport, query-cache configuration and UI code built on libraries that are not part of this model.
- `src/prompt/*` is left out. These files hold static prompt text. Nothing in `src/inngest/` parses the `<task_summary>` marker that src/prompt/prompt1.ts:122-124 describes.
- Message kinds are not modelled. Only a message's role and its optional content are read. A content value of any type other than a string or a list of parts is not modelled, and neither is a part `text` that is not a string.
- Strings are Dafny strings, which are sequences of Unicode scalar values, while JavaScript strings are sequences of UTF-16 code units. A lone surrogate cannot be represented, and the offsets in `JsArray.JoinPlacesEach` and `AgentUtils.PartTextInOrder` count scalar values, not `.length` units.
- The source throws a TypeError in three cases, and the model's types exclude all three: a null or undefined element of `output` (src/inngest/utils.ts:13), a null part (src/inngest/utils.ts:19), and truthy content that is neither a string nor an array (`.map` at src/inngest/utils.ts:19). The declared TypeScript types exclude them too.
