/** One turn of the WebSocket `message` handler in server.js: check the audio,
    transcribe it, record the question, answer it (or refuse), record the answer,
    synthesise it, and send back one message, a result or an error. */
module Turn {
  import opened Outcomes
  import opened JsString
  import opened TopicGuard
  import opened Speech

  datatype Role = System | User | Assistant

  /** One `{role, content}` entry of the conversation history. */
  datatype Entry = Entry(role: Role, content: string)

  /** A request made to one of the three remote services, with what it was sent. */
  datatype Call =
    | Transcribe(audioData: string)
    | Generate(model: string, messages: seq<Entry>, maxTokens: nat)
    | Synthesize(text: string, outputFormat: string, voiceId: string)

  /** The one message sent back on the socket. */
  datatype Reply =
    | Answer(transcript: string, botResponse: string, audioData: Bytes)
    | ErrorReply(error: string)

  const RefusalMessage: string :=
    "I am only authorized to discuss Sanjay Chhaba's personal and professional background."
  const NoAudioMessage: string := "No audio data received"
  const ErrorPrefix: string := "Error processing the conversation: "
  const ChatModel: string := "gpt-4o-mini"
  const MaxTokens: nat := 150
  const OutputFormat: string := "mp3"
  const VoiceId: string := "Joanna"

  /** `!audioData`: absent or the empty string. */
  predicate AudioMissing(audioData: Option<string>)
  {
    audioData.None? || audioData.value == ""
  }

  /** The text of the error reply: the upstream response's data when the error
      carries one, its message otherwise. */
  function ErrorText(f: Failure): string
  {
    ErrorPrefix + if f.responseData.Some? then f.responseData.value else f.message
  }

  /** The audio was there and the transcription came back. */
  predicate Transcribed(audioData: Option<string>, transcription: Outcome<string>)
  {
    !AudioMissing(audioData) && transcription.Ok?
  }

  /** Handles one inbound message. The three services are given by what each one
      would return; `calls` records, in order, which of them were called and with what.
      `history` is the conversation history after the handler's pushes. */
  method HandleMessage(audioData: Option<string>, conversationHistory: seq<Entry>,
                       transcription: Outcome<string>, completion: Outcome<string>,
                       speech: Outcome<AudioStream>)
    returns (reply: Reply, history: seq<Entry>, calls: seq<Call>)
    // the history only grows at its end: the seed system entry and all earlier turns stay
    ensures |conversationHistory| <= |history| <= |conversationHistory| + 2
    ensures history[..|conversationHistory|] == conversationHistory
    // no audio: an error before any service is called
    ensures AudioMissing(audioData) ==>
              reply == ErrorReply(ErrorPrefix + NoAudioMessage)
              && calls == [] && history == conversationHistory
    // transcription comes first and, when it fails, nothing is recorded
    ensures !AudioMissing(audioData) ==> |calls| >= 1 && calls[0] == Transcribe(audioData.value)
    ensures !AudioMissing(audioData) && transcription.Err? ==>
              reply == ErrorReply(ErrorText(transcription.failure))
              && calls == [Transcribe(audioData.value)] && history == conversationHistory
    // out of scope: the generator is never called and the refusal is recorded and spoken
    ensures Transcribed(audioData, transcription) && !IsQuestionRelatedToSanjay(transcription.value) ==>
              calls == [Transcribe(audioData.value), Synthesize(RefusalMessage, OutputFormat, VoiceId)]
              && history == conversationHistory + [Entry(User, transcription.value)]
                                                + [Entry(Assistant, RefusalMessage)]
    // in scope: the generator sees the history with the question already recorded
    ensures Transcribed(audioData, transcription) && IsQuestionRelatedToSanjay(transcription.value) ==>
              |calls| >= 2
              && calls[1] == Generate(ChatModel, conversationHistory + [Entry(User, transcription.value)], MaxTokens)
    ensures Transcribed(audioData, transcription) && IsQuestionRelatedToSanjay(transcription.value)
            && completion.Err? ==>
              reply == ErrorReply(ErrorText(completion.failure))
              && |calls| == 2 && history == conversationHistory + [Entry(User, transcription.value)]
    ensures Transcribed(audioData, transcription) && IsQuestionRelatedToSanjay(transcription.value)
            && completion.Ok? ==>
              |calls| == 3 && calls[2] == Synthesize(Trim(completion.value), OutputFormat, VoiceId)
              && history == conversationHistory + [Entry(User, transcription.value)]
                                                + [Entry(Assistant, Trim(completion.value))]
    // synthesis fails after both entries were recorded, and no audio leaks out
    ensures Transcribed(audioData, transcription)
            && (IsQuestionRelatedToSanjay(transcription.value) ==> completion.Ok?) ==>
              (speech.Err? ==> reply == ErrorReply(ErrorText(speech.failure)))
              && (speech.Ok? && speech.value.failure.Some? ==>
                    reply == ErrorReply(ErrorText(speech.value.failure.value)))
    // a result is sent exactly when no stage failed
    ensures reply.Answer? <==>
              Transcribed(audioData, transcription)
              && (IsQuestionRelatedToSanjay(transcription.value) ==> completion.Ok?)
              && speech.Ok? && speech.value.failure.None?
    // what a result says: the transcript, the answer that was recorded and spoken, all of the audio
    ensures reply.Answer? ==>
              transcription == Ok(reply.transcript)
              && reply.botResponse == (if IsQuestionRelatedToSanjay(reply.transcript)
                                       then Trim(completion.value) else RefusalMessage)
              && history == conversationHistory + [Entry(User, reply.transcript)]
                                                + [Entry(Assistant, reply.botResponse)]
              && calls[|calls| - 1] == Synthesize(reply.botResponse, OutputFormat, VoiceId)
              && reply.audioData == Concat(speech.value.chunks)
  {
    history := conversationHistory;
    calls := [];
    if AudioMissing(audioData) {
      reply := ErrorReply(ErrorPrefix + NoAudioMessage);
      return;
    }

    calls := calls + [Transcribe(audioData.value)];
    if transcription.Err? {
      reply := ErrorReply(ErrorText(transcription.failure));
      return;
    }
    var transcript := transcription.value;
    history := history + [Entry(User, transcript)];

    var laterCalls;
    reply, history, laterCalls := Respond(transcript, history, completion, speech);
    calls := calls + laterCalls;
  }

  /** Everything after the question is recorded: answer it or refuse, record the
      answer, synthesise it and build the reply. */
  method Respond(transcript: string, history: seq<Entry>, completion: Outcome<string>,
                 speech: Outcome<AudioStream>)
    returns (reply: Reply, newHistory: seq<Entry>, calls: seq<Call>)
    ensures !IsQuestionRelatedToSanjay(transcript) ==>
              calls == [Synthesize(RefusalMessage, OutputFormat, VoiceId)]
              && newHistory == history + [Entry(Assistant, RefusalMessage)]
    ensures IsQuestionRelatedToSanjay(transcript) ==>
              |calls| >= 1 && calls[0] == Generate(ChatModel, history, MaxTokens)
    ensures IsQuestionRelatedToSanjay(transcript) && completion.Err? ==>
              reply == ErrorReply(ErrorText(completion.failure))
              && calls == [Generate(ChatModel, history, MaxTokens)] && newHistory == history
    ensures IsQuestionRelatedToSanjay(transcript) && completion.Ok? ==>
              |calls| == 2 && calls[1] == Synthesize(Trim(completion.value), OutputFormat, VoiceId)
              && newHistory == history + [Entry(Assistant, Trim(completion.value))]
    ensures (IsQuestionRelatedToSanjay(transcript) ==> completion.Ok?) ==>
              (speech.Err? ==> reply == ErrorReply(ErrorText(speech.failure)))
              && (speech.Ok? && speech.value.failure.Some? ==>
                    reply == ErrorReply(ErrorText(speech.value.failure.value)))
    ensures reply.Answer? <==>
              (IsQuestionRelatedToSanjay(transcript) ==> completion.Ok?)
              && speech.Ok? && speech.value.failure.None?
    ensures reply.Answer? ==>
              reply.transcript == transcript
              && reply.botResponse == (if IsQuestionRelatedToSanjay(transcript)
                                       then Trim(completion.value) else RefusalMessage)
              && newHistory == history + [Entry(Assistant, reply.botResponse)]
              && calls[|calls| - 1] == Synthesize(reply.botResponse, OutputFormat, VoiceId)
              && reply.audioData == Concat(speech.value.chunks)
  {
    newHistory := history;
    var answer;
    answer, calls := AnswerQuestion(transcript, newHistory, completion);
    if answer.Err? {
      reply := ErrorReply(ErrorText(answer.failure));
      return;
    }
    var botResponse := answer.value;
    newHistory := newHistory + [Entry(Assistant, botResponse)];

    calls := calls + [Synthesize(botResponse, OutputFormat, VoiceId)];
    var audio := ReceiveSpeech(speech);
    if audio.Err? {
      reply := ErrorReply(ErrorText(audio.failure));
      return;
    }
    reply := Answer(transcript, botResponse, audio.value);
  }

  /** The branch on the topic guard. In scope: ask the generator, given the history
      with the question recorded, and trim its first choice. Out of scope: the refusal,
      without calling anything. */
  method AnswerQuestion(transcript: string, history: seq<Entry>, completion: Outcome<string>)
    returns (answer: Outcome<string>, calls: seq<Call>)
    ensures IsQuestionRelatedToSanjay(transcript) ==>
              calls == [Generate(ChatModel, history, MaxTokens)]
              && (completion.Ok? ==> answer == Ok(Trim(completion.value)))
              && (completion.Err? ==> answer == completion)
    ensures !IsQuestionRelatedToSanjay(transcript) ==> calls == [] && answer == Ok(RefusalMessage)
  {
    if IsQuestionRelatedToSanjay(transcript) {
      calls := [Generate(ChatModel, history, MaxTokens)];
      if completion.Err? {
        return completion, calls;
      }
      answer := Ok(Trim(completion.value));
    } else {
      answer, calls := Ok(RefusalMessage), [];
    }
  }
}
