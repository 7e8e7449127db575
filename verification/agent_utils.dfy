/**
 The text of an agent run's last assistant message (`lastAssistantTextMessageContent`
 in src/inngest/utils.ts): find the last message whose role is "assistant", and
 answer its content as a string, or `undefined` when there is no such message or its
 content is falsy.
 */
module AgentUtils {
  import opened Wrappers
  import opened JsArray
  import opened Messages

  /** `i` is the index of the last assistant message of `output`. */
  ghost predicate IsLastAssistant(output: seq<Message>, i: int) {
    IsLastMatch(output, IsAssistant, i)
  }

  /** `output` holds no assistant message at all. */
  ghost predicate NoAssistant(output: seq<Message>) {
    NoMatch(output, IsAssistant)
  }

  /**
   The conditional on the chosen message's content: falsy content gives `undefined`,
   a string is answered as it is, and a list of parts is answered as the join of the
   parts' texts.
   */
  function ContentText(content: Option<Content>): (r: Option<string>)
    ensures r.None? <==> !Truthy(content)
    ensures r.Some? && content.value.Str? ==> r.value == content.value.s
    ensures r.Some? && content.value.Parts? ==> r.value == Join(Texts(content.value.parts))
  {
    if !Truthy(content) then None
    else match content.value
      case Str(s) => Some(s)
      case Parts(parts) => Some(Join(Texts(parts)))
  }

  /**
   `lastAssistantTextMessageContent(result)` over `result.output`. Without an
   assistant message the result is `undefined`; otherwise it is determined by the
   content of the last assistant message alone.
   */
  function LastAssistantTextMessageContent(output: seq<Message>): (r: Option<string>)
    ensures NoAssistant(output) ==> r == None
    ensures forall i | IsLastAssistant(output, i) :: r == ContentText(output[i].content)
  {
    var index := FindLastIndex(output, IsAssistant);
    match At(output, index)
    case None => None
    case Some(message) => ContentText(message.content)
  }

  /**
   The result is `undefined` exactly when there is no assistant message or the last
   one's content is falsy (absent or the empty string).
   */
  lemma UndefinedIff(output: seq<Message>)
    ensures LastAssistantTextMessageContent(output) == None
        <==> NoAssistant(output) || exists i :: IsLastAssistant(output, i) && !Truthy(output[i].content)
  {
  }

  /**
   Selection: in `before + [m] + after`, with `m` an assistant message and no
   assistant message in `after`, the result depends on `m`'s content only.
   */
  lemma SelectsLastAssistant(before: seq<Message>, m: Message, after: seq<Message>)
    requires IsAssistant(m)
    requires NoAssistant(after)
    ensures LastAssistantTextMessageContent(before + [m] + after) == ContentText(m.content)
  {
    var output := before + [m] + after;
    var i := |before|;
    assert output[i] == m;
    forall j | i < j < |output|
      ensures !IsAssistant(output[j])
    {
      assert output[j] == after[j - i - 1];
    }
    assert IsLastAssistant(output, i);
  }

  /** Absent content, or the empty string, of the last assistant message gives `undefined`, not "". */
  lemma FalsyContentIsUndefined(before: seq<Message>, m: Message, after: seq<Message>)
    requires IsAssistant(m)
    requires NoAssistant(after)
    requires m.content == None || m.content == Some(Str(""))
    ensures LastAssistantTextMessageContent(before + [m] + after) == None
  {
    SelectsLastAssistant(before, m, after);
  }

  /** Non-empty string content of the last assistant message is the result, unchanged. */
  lemma StringContentIsResult(before: seq<Message>, m: Message, after: seq<Message>, s: string)
    requires IsAssistant(m)
    requires NoAssistant(after)
    requires m.content == Some(Str(s)) && s != ""
    ensures LastAssistantTextMessageContent(before + [m] + after) == Some(s)
  {
    SelectsLastAssistant(before, m, after);
  }

  /** A list of parts gives the join of the parts' texts, a part without text contributing "". */
  lemma PartsContentIsJoined(before: seq<Message>, m: Message, after: seq<Message>, parts: seq<Part>)
    requires IsAssistant(m)
    requires NoAssistant(after)
    requires m.content == Some(Parts(parts))
    ensures LastAssistantTextMessageContent(before + [m] + after) == Some(Join(Texts(parts)))
  {
    SelectsLastAssistant(before, m, after);
  }

  /**
   In that join, the text of part `k` stands right after the texts of the parts
   before it: the parts are concatenated in list order.
   */
  lemma PartTextInOrder(parts: seq<Part>, k: int)
    requires 0 <= k < |parts|
    ensures var off := |Join(Texts(parts[..k]))|;
      && off + |Render(parts[k].text)| <= |Join(Texts(parts))|
      && Join(Texts(parts))[off .. off + |Render(parts[k].text)|] == Render(parts[k].text)
  {
    var items := Texts(parts);
    assert items[..k] == Texts(parts[..k]);
    assert items[k] == parts[k].text;
    JoinPlacesEach(items, k);
  }

  /**
   A list of parts none of which has text (the empty list included) gives "", not
   `undefined`: unlike the empty string, an empty array is truthy.
   */
  lemma TextlessPartsGiveEmptyString(before: seq<Message>, m: Message, after: seq<Message>, parts: seq<Part>)
    requires IsAssistant(m)
    requires NoAssistant(after)
    requires m.content == Some(Parts(parts))
    requires forall k | 0 <= k < |parts| :: parts[k].text == None || parts[k].text == Some("")
    ensures LastAssistantTextMessageContent(before + [m] + after) == Some("")
  {
    SelectsLastAssistant(before, m, after);
    JoinEmptyIff(Texts(parts));
  }

  /** Appending a message whose role is not "assistant" leaves the result unchanged. */
  lemma AppendNonAssistantUnchanged(output: seq<Message>, m: Message)
    requires !IsAssistant(m)
    ensures LastAssistantTextMessageContent(output + [m]) == LastAssistantTextMessageContent(output)
  {
  }

  /** Appending any number of non-assistant messages leaves the result unchanged. */
  lemma {:induction false} AppendNonAssistantsUnchanged(output: seq<Message>, tail: seq<Message>)
    requires NoAssistant(tail)
    ensures LastAssistantTextMessageContent(output + tail) == LastAssistantTextMessageContent(output)
    decreases |tail|
  {
    if |tail| == 0 {
      assert output + tail == output;
    } else {
      var init := tail[..|tail| - 1];
      var last := tail[|tail| - 1];
      assert NoAssistant(init) by {
        forall j | 0 <= j < |init| ensures !IsAssistant(init[j]) {
          assert init[j] == tail[j];
        }
      }
      assert !IsAssistant(last);
      calc {
        LastAssistantTextMessageContent(output + tail);
        { assert output + tail == (output + init) + [last]; }
        LastAssistantTextMessageContent((output + init) + [last]);
        { AppendNonAssistantUnchanged(output + init, last); }
        LastAssistantTextMessageContent(output + init);
        { AppendNonAssistantsUnchanged(output, init); }
        LastAssistantTextMessageContent(output);
      }
    }
  }

  /** Appending an assistant message with non-empty string content `s` makes the result `s`. */
  lemma AppendAssistantString(output: seq<Message>, m: Message, s: string)
    requires IsAssistant(m)
    requires m.content == Some(Str(s)) && s != ""
    ensures LastAssistantTextMessageContent(output + [m]) == Some(s)
  {
  }

  /**
   Messages before the last assistant message have no effect: once `output` holds an
   assistant message, putting any messages in front of it does not change the result.
   */
  lemma PrefixIrrelevant(prefix: seq<Message>, output: seq<Message>)
    requires !NoAssistant(output)
    ensures LastAssistantTextMessageContent(prefix + output) == LastAssistantTextMessageContent(output)
  {
    var k := FindLastIndex(output, IsAssistant);
    assert IsLastAssistant(output, k);
    var before := output[..k];
    var after := output[k + 1..];
    assert output == before + [output[k]] + after;
    assert NoAssistant(after) by {
      forall j | 0 <= j < |after| ensures !IsAssistant(after[j]) {
        assert after[j] == output[k + 1 + j];
      }
    }
    SelectsLastAssistant(before, output[k], after);
    assert prefix + output == (prefix + before) + [output[k]] + after;
    SelectsLastAssistant(prefix + before, output[k], after);
  }
}
