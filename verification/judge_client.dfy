/** The judge client: assembles the two-message chat request (a fixed system
    instruction, then the video inputs in order followed by the comparison
    prompt) and asks the judge model for a reply, retrying a bounded number of
    times. The model's endpoint is an oracle: the outcome of attempt k is
    given as the k-th element of a sequence (None for a failed call). */
module JudgeClient {
  import opened Common

  /** The number of calls made before giving up. */
  const MaxAttempts: nat := 10

  /** Every encoded frame is sent as a URL with this prefix. */
  const ImageUrlPrefix: string := "data:image/jpeg;base64,"

  /** The system instruction: the judge watches a video given as frames and
      follows the user's requests; its wording is not part of this model. */
  const SystemInstruction: string := "<system instruction: watch the video given as frames; follow the user's requests>"

  /** A decoded video frame; its pixels are only ever handed to the encoder. */
  datatype Frame = Frame(pixels: seq<int>)

  /** One element of the media adapter's output: a caption or a frame. */
  datatype VideoInput = TextInput(text: string) | ImageInput(frame: Frame)

  /** One element of a chat message's content. */
  datatype ContentItem = TextItem(text: string) | ImageUrlItem(url: string)

  datatype Role = System | User

  datatype Message = Message(role: Role, content: seq<ContentItem>)

  // ---------------------------------------------------------------------
  // Message assembly

  /** `messages` is the request for `prompt` and `videoInputs`: the system
      message, then a user message whose content holds one item per video
      input, in order, and the prompt last. A caption passes through as text;
      a frame is sent as a JPEG data URL of its encoding. */
  ghost predicate RequestMessages(messages: seq<Message>, prompt: string, videoInputs: seq<VideoInput>,
                                  encode: Frame -> string) {
    && |messages| == 2
    && messages[0] == Message(System, [TextItem(SystemInstruction)])
    && messages[1].role == User
    && |messages[1].content| == |videoInputs| + 1
    && (forall i :: 0 <= i < |videoInputs| && videoInputs[i].TextInput? ==>
          messages[1].content[i] == TextItem(videoInputs[i].text))
    && (forall i :: 0 <= i < |videoInputs| && videoInputs[i].ImageInput? ==>
          messages[1].content[i] == ImageUrlItem(ImageUrlPrefix + encode(videoInputs[i].frame)))
    && messages[1].content[|videoInputs|] == TextItem(prompt)
  }

  /** Builds the request. `encode` stands for the resize-to-512x512, JPEG and
      base64 encoding. */
  method BuildMessages(prompt: string, videoInputs: seq<VideoInput>, encode: Frame -> string)
    returns (messages: seq<Message>)
    ensures RequestMessages(messages, prompt, videoInputs, encode)
  {
    messages := [Message(System, [TextItem(SystemInstruction)]), Message(User, [])];
    for i := 0 to |videoInputs|
      invariant |messages| == 2
      invariant messages[0] == Message(System, [TextItem(SystemInstruction)])
      invariant messages[1].role == User
      invariant |messages[1].content| == i
      invariant forall k :: 0 <= k < i && videoInputs[k].TextInput? ==>
                  messages[1].content[k] == TextItem(videoInputs[k].text)
      invariant forall k :: 0 <= k < i && videoInputs[k].ImageInput? ==>
                  messages[1].content[k] == ImageUrlItem(ImageUrlPrefix + encode(videoInputs[k].frame))
    {
      var item;
      match videoInputs[i] {
        case TextInput(text) =>
          item := TextItem(text);
        case ImageInput(frame) =>
          item := ImageUrlItem(ImageUrlPrefix + encode(frame));
      }
      messages := messages[1 := messages[1].(content := messages[1].content + [item])];
    }
    messages := messages[1 := messages[1].(content := messages[1].content + [TextItem(prompt)])];
  }

  // ---------------------------------------------------------------------
  // Bounded retry

  /** The outcome of call number `k`; calls past the end of the oracle fail. */
  function Attempt(outcomes: seq<Option<string>>, k: nat): Option<string>
  {
    if k < |outcomes| then outcomes[k] else None
  }

  /** The first call, from number `k` on and within the attempt budget, that
      succeeds. */
  function FirstSuccess(outcomes: seq<Option<string>>, k: nat): (r: Option<nat>)
    ensures r.Some? ==> k <= r.value < MaxAttempts && Attempt(outcomes, r.value).Some?
    ensures r.Some? ==> forall j :: k <= j < r.value ==> Attempt(outcomes, j).None?
    ensures r.None? ==> forall j :: k <= j < MaxAttempts ==> Attempt(outcomes, j).None?
    decreases MaxAttempts - k
  {
    if k >= MaxAttempts then None
    else if Attempt(outcomes, k).Some? then Some(k)
    else FirstSuccess(outcomes, k + 1)
  }

  /** The reply the client returns: the first successful call's content, or
      the empty string once every attempt has failed. */
  function JudgeReply(outcomes: seq<Option<string>>): string
  {
    match FirstSuccess(outcomes, 0)
    case Some(k) => Attempt(outcomes, k).value
    case None => ""
  }

  /** The number of failed calls, which is also the number of back-off sleeps. */
  function FailedAttempts(outcomes: seq<Option<string>>): nat
  {
    match FirstSuccess(outcomes, 0)
    case Some(k) => k
    case None => MaxAttempts
  }

  /** The number of calls made to the judge model. */
  function AttemptsMade(outcomes: seq<Option<string>>): (n: nat)
    ensures 1 <= n <= MaxAttempts
    ensures n == FailedAttempts(outcomes) || n == FailedAttempts(outcomes) + 1
  {
    match FirstSuccess(outcomes, 0)
    case Some(k) => k + 1
    case None => MaxAttempts
  }

  /** The first call that succeeds within the budget decides the reply, and
      the calls before it are the failures. */
  lemma FirstSuccessDecides(outcomes: seq<Option<string>>, k: nat, reply: string)
    requires k < MaxAttempts && Attempt(outcomes, k) == Some(reply)
    requires forall j :: 0 <= j < k ==> Attempt(outcomes, j).None?
    ensures JudgeReply(outcomes) == reply
    ensures FailedAttempts(outcomes) == k && AttemptsMade(outcomes) == k + 1
  {
  }

  /** When every call in the budget fails, the reply is empty and MaxAttempts
      calls, and as many sleeps, were made. */
  lemma ExhaustedRetriesGiveEmptyReply(outcomes: seq<Option<string>>)
    requires forall j :: 0 <= j < MaxAttempts ==> Attempt(outcomes, j).None?
    ensures JudgeReply(outcomes) == ""
    ensures FailedAttempts(outcomes) == MaxAttempts == AttemptsMade(outcomes)
  {
  }

  /** Sends the prompt and the video inputs to the judge model. It stops at the
      first successful call and returns its content; a failed call is followed
      by a back-off sleep and counted; after MaxAttempts failures it returns
      the empty string. `tryCount` is the number of failed calls (and sleeps);
      `messages` is what every call sends. */
  method Request(prompt: string, videoInputs: seq<VideoInput>, encode: Frame -> string,
                 outcomes: seq<Option<string>>)
    returns (responseText: string, tryCount: nat, messages: seq<Message>)
    ensures RequestMessages(messages, prompt, videoInputs, encode)
    ensures tryCount <= MaxAttempts
    ensures forall k :: 0 <= k < tryCount ==> Attempt(outcomes, k).None?
    ensures tryCount < MaxAttempts ==> Attempt(outcomes, tryCount) == Some(responseText)
    ensures tryCount == MaxAttempts ==> responseText == ""
    ensures responseText == JudgeReply(outcomes) && tryCount == FailedAttempts(outcomes)
  {
    messages := BuildMessages(prompt, videoInputs, encode);
    responseText := "";
    tryCount := 0;
    while tryCount < MaxAttempts
      invariant tryCount <= MaxAttempts
      invariant responseText == ""
      invariant forall k :: 0 <= k < tryCount ==> Attempt(outcomes, k).None?
      invariant FirstSuccess(outcomes, 0) == FirstSuccess(outcomes, tryCount)
    {
      // One call with `messages`; its outcome comes from the oracle.
      match Attempt(outcomes, tryCount) {
        case Some(content) =>
          responseText := content;
          break;
        case None =>
          tryCount := tryCount + 1;
      }
    }
  }
}
