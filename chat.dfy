/**
 * The chat helper of the presentation editor (app/components/PresentationChat.tsx).
 *
 * The helper keeps a message log, an input line, a loading flag, the text
 * streamed so far and whether the "apply" button shows.  Submitting sends
 * the trimmed input to the language model and streams the answer into the
 * log; applying pulls the markdown out of the latest assistant answer and
 * hands it to the editor; clearing empties the conversation.
 *
 * The request itself is network I/O and is not modelled: its outcome (the
 * chunks received, and whether the stream completed, failed or was aborted)
 * is a parameter of `ChatPanel.Submit`.
 */
module ChatHelper {
  import opened Text

  datatype Role = User | Assistant

  datatype Message = Message(role: Role, content: string)

  /** How the stream ended: read to the end, an error (bad HTTP status, no
      body, a network failure), or an `AbortError`. */
  datatype StreamEnd = Completed | Failed | Aborted

  /** The chunks decoded before the stream ended, and how it ended.  A
      request that fails before any body arrives has no chunks. */
  datatype RequestOutcome = RequestOutcome(chunks: seq<string>, end: StreamEnd)

  /** The opening fence, and the closing fence of every block. */
  const Fence := "```"
  const MarkdownFence := "```markdown\n"
  const MdFence := "```md\n"
  /** The assistant message logged for a failed request: the single text
      "Sorry, I encountered an error. Please try again.", written as four
      pieces so that facts about its characters are checked piece by piece. */
  const Apology := "Sorry, " + "I encountered " + "an error. " + "Please try again."

  // ---------------------------------------------------------------------
  // Finding the last assistant message
  // ---------------------------------------------------------------------

  /** `messages.slice().reverse().find(m => m.role === 'assistant')`, as an
      index: the latest assistant message, if any. */
  function LastAssistant(messages: seq<Message>): (r: Option<nat>)
    ensures r.Some? ==> r.value < |messages| && messages[r.value].role == Assistant
    ensures r.Some? ==> forall j :: r.value < j < |messages| ==> messages[j].role != Assistant
    ensures r.None? ==> forall j :: 0 <= j < |messages| ==> messages[j].role != Assistant
    decreases |messages|
  {
    if messages == [] then None
    else if messages[|messages| - 1].role == Assistant then Some(|messages| - 1)
    else LastAssistant(messages[..|messages| - 1])
  }

  // ---------------------------------------------------------------------
  // Fenced blocks: /open([\s\S]*?)```/
  // ---------------------------------------------------------------------

  /** A match of `/open([\s\S]*?)```/` at `p`: the opener occurs at `p`, a
      fence at `c` after the opener, and (the lazy body) no fence between. */
  ghost predicate IsBlockMatch(s: string, open: string, p: int, c: int) {
    && OccursAt(s, open, p)
    && p + |open| <= c
    && OccursAt(s, Fence, c)
    && forall k :: p + |open| <= k < c ==> !OccursAt(s, Fence, k)
  }

  /** The match `String.prototype.match` reports: the leftmost one. */
  ghost predicate IsFirstBlock(s: string, open: string, p: int, c: int) {
    IsBlockMatch(s, open, p, c) && forall q, d :: IsBlockMatch(s, open, q, d) ==> p <= q
  }

  /** Where a fenced block starts (its opener) and where its closing fence is. */
  datatype Block = Block(start: nat, close: nat)

  /** The first opener, closed by the nearest fence after it.  If the first
      opener has no fence after it, no later opener has one either, so
      there is no match at all. */
  function FindBlock(s: string, open: string): (r: Option<Block>)
    ensures r.Some? ==> IsFirstBlock(s, open, r.value.start, r.value.close)
    ensures r.None? ==> forall q, d :: !IsBlockMatch(s, open, q, d)
  {
    match FindFrom(s, open, 0)
    case None => None
    case Some(p) =>
      match FindFrom(s, Fence, p + |open|)
      case None => None
      case Some(c) => Some(Block(p, c))
  }

  /** A regular-expression match has one leftmost position and, there, one
      lazy body: the first block is unique. */
  lemma FirstBlockUnique(s: string, open: string, p: int, c: int, p': int, c': int)
    requires IsFirstBlock(s, open, p, c) && IsFirstBlock(s, open, p', c')
    ensures p == p' && c == c'
  {
    assert p <= p' && p' <= p;
  }

  /** What `text.match(/open([\s\S]*?)```/)` captures: the text between the
      opener and the closing fence of the first block. */
  function BlockBody(s: string, open: string): (r: Option<string>)
    ensures r.None? <==> forall q, d :: !IsBlockMatch(s, open, q, d)
    ensures forall p, c :: IsFirstBlock(s, open, p, c) ==> r == Some(s[p + |open|..c])
  {
    match FindBlock(s, open)
    case None => None
    case Some(b) =>
      assert forall p, c :: IsFirstBlock(s, open, p, c) ==> p == b.start && c == b.close by {
        forall p, c | IsFirstBlock(s, open, p, c) ensures p == b.start && c == b.close {
          FirstBlockUnique(s, open, p, c, b.start, b.close);
        }
      }
      Some(s[b.start + |open|..b.close])
  }

  /** Every opener begins with a fence, so a block match is an occurrence of one. */
  lemma BlockMatchHasFence(s: string, open: string, p: int, c: int)
    requires StartsWith(open, Fence) && IsBlockMatch(s, open, p, c)
    ensures Contains(s, Fence)
  {
    assert s[p..p + |Fence|] == s[p..p + |open|][..|Fence|];
    assert OccursAt(s, Fence, p);
  }

  // ---------------------------------------------------------------------
  // extractMarkdownFromLastMessage
  // ---------------------------------------------------------------------

  /** The three patterns tried in order: a ```markdown block, a ```md block,
      any fenced block. */
  function FencedBody(content: string): (r: Option<string>)
    ensures r.None? <==>
      forall q, d :: !IsBlockMatch(content, MarkdownFence, q, d) && !IsBlockMatch(content, MdFence, q, d)
        && !IsBlockMatch(content, Fence, q, d)
    ensures r.Some? ==> Contains(content, Fence)
  {
    assert StartsWith(MarkdownFence, Fence) && StartsWith(MdFence, Fence);
    assert BlockBody(content, Fence).Some? ==> Contains(content, Fence) by {
      if BlockBody(content, Fence).Some? {
        var q, d :| IsBlockMatch(content, Fence, q, d);
        BlockMatchHasFence(content, Fence, q, d);
      }
    }
    assert BlockBody(content, MdFence).Some? ==> Contains(content, Fence) by {
      if BlockBody(content, MdFence).Some? {
        var q, d :| IsBlockMatch(content, MdFence, q, d);
        BlockMatchHasFence(content, MdFence, q, d);
      }
    }
    assert BlockBody(content, MarkdownFence).Some? ==> Contains(content, Fence) by {
      if BlockBody(content, MarkdownFence).Some? {
        var q, d :| IsBlockMatch(content, MarkdownFence, q, d);
        BlockMatchHasFence(content, MarkdownFence, q, d);
      }
    }
    match BlockBody(content, MarkdownFence)
    case Some(body) => Some(body)
    case None =>
      match BlockBody(content, MdFence)
      case Some(body) => Some(body)
      case None => BlockBody(content, Fence)
  }

  /** The fallback test, `includes` of `#`, `---` or a fence: each is
      anywhere in the text, the last two found by `FindFrom`. */
  function LooksLikeMarkdown(content: string): (r: bool)
    ensures r <==> '#' in content || FindFrom(content, "---", 0).Some? || FindFrom(content, Fence, 0).Some?
  {
    ContainsChar(content, '#');
    ContainsIffFound(content, "---");
    ContainsIffFound(content, Fence);
    Contains(content, "#") || Contains(content, "---") || Contains(content, Fence)
  }

  /** The markdown extracted from one assistant message: the trimmed body of
      the first fenced block by pattern priority, else the whole trimmed text
      when it looks like markdown, else nothing.  There is a result exactly
      when the text has `#`, `---` or a fence, and it is always trimmed. */
  function ExtractFromContent(content: string): (r: Option<string>)
    ensures r.Some? <==> LooksLikeMarkdown(content)
    ensures r.Some? ==> IsTrimmed(r.value)
  {
    match FencedBody(content)
    case Some(body) => Some(Trim(body))
    case None => if LooksLikeMarkdown(content) then Some(Trim(content)) else None
  }

  /** `extractMarkdownFromLastMessage`: nothing without an assistant message;
      otherwise the extraction from the latest assistant message alone. */
  function ExtractMarkdown(messages: seq<Message>): (r: Option<string>)
    ensures (forall j :: 0 <= j < |messages| ==> messages[j].role != Assistant) ==> r.None?
  {
    match LastAssistant(messages)
    case None => None
    case Some(i) => ExtractFromContent(messages[i].content)
  }

  /** Only the latest assistant message is inspected: whatever comes before
      it, and the user messages after it, play no part. */
  lemma ExtractReadsLatestAssistant(messages: seq<Message>, i: int)
    requires 0 <= i < |messages| && messages[i].role == Assistant
    requires forall j :: i < j < |messages| ==> messages[j].role != Assistant
    ensures ExtractMarkdown(messages) == ExtractFromContent(messages[i].content)
  {
  }

  /** A ```markdown block wins over every other pattern. */
  lemma MarkdownFenceFirst(content: string, p: int, c: int)
    requires IsFirstBlock(content, MarkdownFence, p, c)
    ensures ExtractFromContent(content) == Some(Trim(content[p + |MarkdownFence|..c]))
  {
  }

  /** Without a ```markdown block, a ```md block wins over a plain one. */
  lemma MdFenceSecond(content: string, p: int, c: int)
    requires forall q, d :: !IsBlockMatch(content, MarkdownFence, q, d)
    requires IsFirstBlock(content, MdFence, p, c)
    ensures ExtractFromContent(content) == Some(Trim(content[p + |MdFence|..c]))
  {
  }

  /** Without either, the first plain fenced block is taken. */
  lemma PlainFenceThird(content: string, p: int, c: int)
    requires forall q, d :: !IsBlockMatch(content, MarkdownFence, q, d)
    requires forall q, d :: !IsBlockMatch(content, MdFence, q, d)
    requires IsFirstBlock(content, Fence, p, c)
    ensures ExtractFromContent(content) == Some(Trim(content[p + |Fence|..c]))
  {
  }

  /** When none of the three patterns matches, the whole trimmed text is
      taken if it looks like markdown, and nothing otherwise. */
  lemma NoFenceFallback(content: string)
    requires forall q, d :: !IsBlockMatch(content, MarkdownFence, q, d)
    requires forall q, d :: !IsBlockMatch(content, MdFence, q, d)
    requires forall q, d :: !IsBlockMatch(content, Fence, q, d)
    ensures ExtractFromContent(content) == if LooksLikeMarkdown(content) then Some(Trim(content)) else None
  {
  }

  /** A user message added to the log does not change what is extracted. */
  lemma {:induction false} ExtractIgnoresUserMessage(messages: seq<Message>, text: string)
    ensures ExtractMarkdown(messages + [Message(User, text)]) == ExtractMarkdown(messages)
  {
    var m := messages + [Message(User, text)];
    assert m[..|m| - 1] == messages;
  }

  /** After an assistant reply, extraction looks at that reply only. */
  lemma ExtractSeesLatestReply(messages: seq<Message>, reply: string)
    ensures ExtractMarkdown(messages + [Message(Assistant, reply)]) == ExtractFromContent(reply)
  {
  }

  /** No character of `s` can start `#`, `---` or a fence. */
  predicate HasNoMarkerChar(s: string) {
    '#' !in s && '-' !in s && '`' !in s
  }

  /** A text without `#`, `-` or a backquote does not look like markdown. */
  lemma NoMarkerCharNoMarkdown(s: string)
    requires HasNoMarkerChar(s)
    ensures !LooksLikeMarkdown(s)
  {
    forall p: string, i: int | p in ["#", "---", Fence] && 0 <= i <= |s| - |p|
      ensures !OccursAt(s, p, i)
    {
      assert s[i..i + |p|][0] == s[i];
    }
  }

  /** The apology logged for a failed request is not markdown, so nothing
      can be applied from it. */
  lemma ApologyHasNoMarkdown()
    ensures ExtractFromContent(Apology) == None
  {
    assert HasNoMarkerChar("Sorry, ") && HasNoMarkerChar("I encountered ");
    assert HasNoMarkerChar("an error. ") && HasNoMarkerChar("Please try again.");
    NoMarkerCharNoMarkdown(Apology);
  }

  // ---------------------------------------------------------------------
  // The streamed answer
  // ---------------------------------------------------------------------

  /** `fullContent` after every chunk has been added with `+=`. */
  function Concat(chunks: seq<string>): (r: string)
    ensures chunks != [] ==> EndsWith(r, chunks[|chunks| - 1])
  {
    if chunks == [] then "" else Concat(chunks[..|chunks| - 1]) + chunks[|chunks| - 1]
  }

  /** Streaming two runs of chunks is streaming the first, then the second. */
  lemma {:induction false} ConcatAppend(a: seq<string>, b: seq<string>)
    ensures Concat(a + b) == Concat(a) + Concat(b)
    decreases |b|
  {
    if b == [] {
      assert a + b == a;
    } else {
      var front, last := b[..|b| - 1], b[|b| - 1];
      ConcatAppend(a, front);
      assert (a + b)[..|a + b| - 1] == a + front && (a + b)[|a + b| - 1] == last;
      calc {
        Concat(a + b);
        Concat(a + front) + last;
        (Concat(a) + Concat(front)) + last;
        Concat(a) + (Concat(front) + last);
        Concat(a) + Concat(b);
      }
    }
  }

  /** The answer holds the chunks in the order received: the first chunk,
      then the rest. */
  lemma ConcatFirst(chunks: seq<string>)
    requires chunks != []
    ensures Concat(chunks) == chunks[0] + Concat(chunks[1..])
  {
    ConcatAppend([chunks[0]], chunks[1..]);
    assert [chunks[0]] + chunks[1..] == chunks;
    assert Concat([chunks[0]]) == Concat([]) + chunks[0];
  }

  /** Every text shown while streaming is a prefix of the final answer. */
  lemma ConcatPrefix(chunks: seq<string>, k: nat)
    requires k <= |chunks|
    ensures StartsWith(Concat(chunks), Concat(chunks[..k]))
  {
    ConcatAppend(chunks[..k], chunks[k..]);
    assert chunks[..k] + chunks[k..] == chunks;
  }

  /** What a request adds to the log after the user message: the whole
      answer when the stream completed, the apology when it failed, nothing
      when it was aborted. */
  function Reply(outcome: RequestOutcome): (r: seq<Message>)
    ensures |r| <= 1 && (r == [] <==> outcome.end == Aborted)
    ensures forall i :: 0 <= i < |r| ==> r[i].role == Assistant
    ensures outcome.end == Completed ==> r[0].content == Concat(outcome.chunks)
    ensures outcome.end == Failed ==> r[0].content == Apology
  {
    match outcome.end
    case Completed => [Message(Assistant, Concat(outcome.chunks))]
    case Failed => [Message(Assistant, Apology)]
    case Aborted => []
  }

  /** What the apply button reads after a request: the streamed answer when
      it completed, nothing after a failure (the apology is not markdown),
      and the earlier conversation's extraction after an abort. */
  lemma ExtractAfterRequest(messages: seq<Message>, prompt: string, outcome: RequestOutcome)
    ensures var log := messages + [Message(User, prompt)] + Reply(outcome);
      && (outcome.end == Completed ==> ExtractMarkdown(log) == ExtractFromContent(Concat(outcome.chunks)))
      && (outcome.end == Failed ==> ExtractMarkdown(log) == None)
      && (outcome.end == Aborted ==> ExtractMarkdown(log) == ExtractMarkdown(messages))
  {
    ExtractIgnoresUserMessage(messages, prompt);
    var asked := messages + [Message(User, prompt)];
    if outcome.end == Completed {
      ExtractSeesLatestReply(asked, Concat(outcome.chunks));
    } else if outcome.end == Failed {
      ExtractSeesLatestReply(asked, Apology);
      ApologyHasNoMarkdown();
    } else {
      assert asked + Reply(outcome) == asked;
    }
  }

  // ---------------------------------------------------------------------
  // The component's state
  // ---------------------------------------------------------------------

  class ChatPanel {
    var messages: seq<Message>
    var input: string
    var isLoading: bool
    var streamingContent: string
    var showApplyButton: bool
    /** `abortControllerRef.current !== null`: a request is in flight. */
    var requestPending: bool

    /** The state `useState` and `useRef` start from. */
    constructor ()
      ensures messages == [] && input == "" && !showApplyButton && Idle()
    {
      messages := [];
      input := "";
      isLoading := false;
      streamingContent := "";
      showApplyButton := false;
      requestPending := false;
    }

    /** No request is in flight and nothing is being streamed. */
    predicate Idle()
      reads this
    {
      !isLoading && streamingContent == "" && !requestPending
    }

    /** The input field's `onChange`. */
    method SetInput(text: string)
      modifies this
      ensures input == text
      ensures messages == old(messages) && showApplyButton == old(showApplyButton)
      ensures isLoading == old(isLoading) && streamingContent == old(streamingContent)
      ensures requestPending == old(requestPending)
    {
      input := text;
    }

    /** `handleSubmit`.  A blank input or a request already loading changes
      nothing and sends nothing.  Otherwise the trimmed input is sent and
      logged as one user message and the input is cleared; the answer's
      chunks are accumulated in order; a completed stream logs them as one
      assistant message and shows the apply button, a failure logs the
      apology, an abort logs nothing; in every case the panel ends idle. */
    method Submit(outcome: RequestOutcome) returns (prompt: Option<string>)
      modifies this
      ensures prompt.None? <==> Trim(old(input)) == "" || old(isLoading)
      ensures prompt.None? ==>
        && messages == old(messages) && input == old(input) && isLoading == old(isLoading)
        && streamingContent == old(streamingContent) && showApplyButton == old(showApplyButton)
        && requestPending == old(requestPending)
      ensures prompt.Some? ==> prompt.value == Trim(old(input)) && input == "" && Idle()
      ensures prompt.Some? ==>
        && messages == old(messages) + [Message(User, prompt.value)] + Reply(outcome)
        && showApplyButton == (outcome.end == Completed)
    {
      var userMessage := Trim(input);
      if userMessage == "" || isLoading {
        return None;
      }
      messages := messages + [Message(User, userMessage)];
      input := "";
      isLoading := true;
      streamingContent := "";
      showApplyButton := false;
      requestPending := true;
      prompt := Some(userMessage);

      var fullContent := Stream(outcome.chunks);
      Settle(outcome, fullContent);
    }

    /** The read loop of `handleSubmit`: each chunk, in order, is appended to
      the answer and shown as the streamed text; nothing else changes. */
    method Stream(chunks: seq<string>) returns (fullContent: string)
      modifies this
      ensures fullContent == Concat(chunks) && streamingContent == fullContent
      ensures messages == old(messages) && input == old(input) && isLoading == old(isLoading)
      ensures showApplyButton == old(showApplyButton) && requestPending == old(requestPending)
    {
      fullContent := "";
      streamingContent := fullContent;
      var i := 0;
      while i < |chunks|
        invariant 0 <= i <= |chunks|
        invariant fullContent == Concat(chunks[..i]) && streamingContent == fullContent
        invariant messages == old(messages) && input == old(input) && isLoading == old(isLoading)
        invariant showApplyButton == old(showApplyButton) && requestPending == old(requestPending)
      {
        assert chunks[..i + 1][..i] == chunks[..i];
        fullContent := fullContent + chunks[i];
        streamingContent := fullContent;
        i := i + 1;
      }
      assert chunks[..i] == chunks;
    }

    /** The end of `handleSubmit`: a completed stream is logged as one
      assistant message and shows the apply button, a failure logs the
      apology, an abort logs nothing; then, as in the `finally` block, the
      panel is left idle. */
    method Settle(outcome: RequestOutcome, fullContent: string)
      requires fullContent == Concat(outcome.chunks)
      modifies this
      ensures messages == old(messages) + Reply(outcome)
      ensures showApplyButton == (outcome.end == Completed || old(showApplyButton))
      ensures input == old(input) && Idle()
    {
      if outcome.end == Completed {
        messages := messages + [Message(Assistant, fullContent)];
        showApplyButton := true;
      } else if outcome.end == Failed {
        messages := messages + [Message(Assistant, Apology)];
      }
      isLoading := false;
      streamingContent := "";
      requestPending := false;
    }

    /** `handleApply`: the extraction from the log is handed to the editor
      (returned here) only when it is a non-empty string, and then the apply
      button is hidden; otherwise nothing changes. */
    method Apply() returns (applied: Option<string>)
      modifies this
      ensures var m := ExtractMarkdown(old(messages));
        applied == if m.Some? && m.value != "" then m else None
      ensures showApplyButton == (if applied.Some? then false else old(showApplyButton))
      ensures messages == old(messages) && input == old(input) && isLoading == old(isLoading)
      ensures streamingContent == old(streamingContent) && requestPending == old(requestPending)
    {
      var markdown := ExtractMarkdown(messages);
      if markdown.Some? && markdown.value != "" {
        applied := markdown;
        showApplyButton := false;
      } else {
        applied := None;
      }
    }

    /** `clearChat`: the log, the streamed text and the input are emptied,
      the apply button is hidden and a pending request is aborted. */
    method Clear()
      modifies this
      ensures messages == [] && streamingContent == "" && input == "" && !showApplyButton
      ensures !requestPending && isLoading == old(isLoading)
    {
      messages := [];
      streamingContent := "";
      showApplyButton := false;
      input := "";
      if requestPending {
        requestPending := false;
      }
    }
  }
}
