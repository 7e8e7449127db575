/**
 The agent result's message list, as far as the source reads it: every message has a
 role and may carry content; content is either a string or a list of text parts.
 */
module Messages {
  import opened Wrappers

  /** One entry of a content list; only its `text` is read, and it may be absent. */
  datatype Part = Part(text: Option<string>)

  /** A message's content: a plain string, or a list of parts. */
  datatype Content = Str(s: string) | Parts(parts: seq<Part>)

  /** A message of the agent's output; `content` is `None` when the field is absent. */
  datatype Message = Message(role: string, content: Option<Content>)

  /** The role the source searches for. */
  const AssistantRole: string := "assistant"

  /** The search predicate: the role is exactly the string "assistant". */
  predicate IsAssistant(m: Message) {
    m.role == AssistantRole
  }

  /**
   JavaScript truthiness of a content value: `undefined` and the empty string are
   falsy; every string with characters and every array, even an empty one, is truthy.
   */
  predicate Truthy(c: Option<Content>) {
    match c
    case None => false
    case Some(Str(s)) => s != ""
    case Some(Parts(_)) => true
  }

  /** `parts.map((c) => c.text)`. */
  function Texts(parts: seq<Part>): seq<Option<string>> {
    seq(|parts|, i requires 0 <= i < |parts| => parts[i].text)
  }
}
