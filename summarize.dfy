/** The server action that summarizes a lesson video: it loads the lesson,
    tries to fetch the video's audio track, assembles a request for the
    language model (multimodal when audio was fetched, a plain prompt
    otherwise) and maps the outcome, or any exception, to a result record.

    The lesson store, the audio fetch, the language model, the rich-text
    flattener and base64 encoding are parameters of the model. */
module Summarize {
  import opened Wrappers
  import opened JsStrings

  newtype Byte = b: int | 0 <= b < 256

  /** A value thrown by an awaited call: an `Error` with its message, or
      anything else. */
  datatype Thrown = ErrorValue(message: string) | OtherValue

  /** The fields of a lesson document the action reads; `None` is a field
      that is `null` or missing. `R` is the rich-text content. */
  datatype Lesson<R> = Lesson(
    title: Option<string>,
    description: Option<string>,
    content: Option<R>,
    playbackId: Option<string>)

  /** How the lesson query turned out: a document, a falsy result, or an
      exception. */
  datatype LessonFetch<R> = Found(lesson: Lesson<R>) | Missing | FetchThrew(thrown: Thrown)

  /** How the audio fetch turned out: an `ok` response whose body was read,
      a response that was not `ok`, or an exception from `fetch` or from
      reading the body. */
  datatype AudioFetch = AudioOk(bytes: seq<Byte>) | AudioNotOk(status: int) | AudioThrew

  datatype Part = TextPart(text: string) | FilePart(data: string, mediaType: string)
  datatype Message = Message(role: string, content: seq<Part>)
  /** The input of a request: a list of messages, or a plain prompt. */
  datatype Input = Messages(messages: seq<Message>) | Prompt(prompt: string)
  datatype Request = Request(model: string, system: string, input: Input)

  /** What the language model call did with a request. */
  datatype Generation = Generated(text: string) | GenerationThrew(thrown: Thrown)

  /** The record the action returns. */
  datatype SummaryResult = Success(summary: string) | Failure(error: string)

  /** One run of the action: the audio URL fetched (if any), the request
      sent to the model (if any) and the result returned. */
  datatype Run = Run(audioUrl: Option<string>, request: Option<Request>, result: SummaryResult)

  const ModelName: string := "gemini-2.5-flash"
  const AudioMediaType: string := "audio/m4a"
  const LessonNotFound: string := "Lesson not found"
  const DefaultError: string := "Failed to generate summary"
  const UntitledLesson: string := "Untitled Lesson"
  const MuxStreamBase: string := "https://stream.mux.com/"
  const AudioPath: string := "/audio.m4a"
  const NoAudioNote: string := "\n\nNo audio track available. Please use the content above."

  const SystemPrompt: string :=
    "You are an expert educational assistant at Ai Academy. Your goal is to provide a concise, "
    + "structured, and helpful summary of a lesson based on its context and the actual video audio. "
    + "Use Markdown for formatting."

  /** The fixed text of the prompt around the three lesson fields. The blank
      second line of the template holds eight spaces. */
  const PromptHead: string :=
    "Summarize the following lesson for a student. Priority should be given to the video audio "
    + "if available.\n        \nLesson Title: "
  const DescriptionLabel: string := "\nDescription: "
  const ContentLabel: string := "\nRich Text Content: "
  const PromptTail: string :=
    "\n\nEnsure the summary is easy to read, structured with headings, and focused on learning outcomes."

  // ---------------------------------------------------------------------
  // The pieces of the pipeline
  // ---------------------------------------------------------------------

  /** The message the catch block reports for a thrown value. */
  function ErrorMessage(t: Thrown): (r: string)
    ensures t.ErrorValue? ==> r == t.message
    ensures t.OtherValue? ==> r == DefaultError
  {
    match t
    case ErrorValue(m) => m
    case OtherValue => DefaultError
  }

  function TitleOf<R>(lesson: Lesson<R>): string {
    Or(lesson.title, UntitledLesson)
  }

  function DescriptionOf<R>(lesson: Lesson<R>): string {
    Or(lesson.description, "")
  }

  /** The plain text of the content, or "" when there is none. Any present
      content is truthy, an empty block list included. */
  function ContentOf<R>(lesson: Lesson<R>, toPlainText: R -> string): string {
    if lesson.content.Some? then toPlainText(lesson.content.value) else ""
  }

  /** The three lesson fields, with their defaults. */
  lemma LessonDefaults<R>(lesson: Lesson<R>, toPlainText: R -> string)
    ensures TitleOf(lesson) == (if Truthy(lesson.title) then lesson.title.value else UntitledLesson)
    ensures TitleOf(lesson) != ""
    ensures DescriptionOf(lesson) == (if lesson.description.Some? then lesson.description.value else "")
    ensures lesson.content.None? ==> ContentOf(lesson, toPlainText) == ""
  {
  }

  /** The Mux URL of a playback id's audio track. */
  function AudioUrl(playbackId: string): (r: string)
    ensures |r| == |MuxStreamBase| + |playbackId| + |AudioPath|
    ensures r[..|MuxStreamBase|] == MuxStreamBase
    ensures r[|MuxStreamBase|..|MuxStreamBase| + |playbackId|] == playbackId
    ensures r[|MuxStreamBase| + |playbackId|..] == AudioPath
  {
    MuxStreamBase + playbackId + AudioPath
  }

  /** Different videos are fetched from different URLs. */
  lemma AudioUrlInjective(a: string, b: string)
    requires AudioUrl(a) == AudioUrl(b)
    ensures a == b
  {
    assert a == AudioUrl(a)[|MuxStreamBase|..|MuxStreamBase| + |a|];
  }

  /** The URL fetched for a lesson: one exactly when its playback id is
      truthy. */
  function AudioTarget(playbackId: Option<string>): (r: Option<string>)
    ensures r.Some? <==> Truthy(playbackId)
    ensures r.Some? ==> r.value == AudioUrl(playbackId.value)
  {
    if Truthy(playbackId) then Some(AudioUrl(playbackId.value)) else None
  }

  /** The audio bytes a fetch yields: only an `ok` response yields any. */
  function AudioOf(fetch: AudioFetch): (r: Option<seq<Byte>>)
    ensures r.Some? <==> fetch.AudioOk?
    ensures fetch.AudioOk? ==> r.value == fetch.bytes
  {
    match fetch
    case AudioOk(bytes) => Some(bytes)
    case _ => None
  }

  /** The prompt built from the lesson fields: the title, then the
      description, then the content, each at its place in the template. */
  function PromptText(title: string, description: string, content: string): (r: string)
    ensures var t := |PromptHead|;
            var d := t + |title| + |DescriptionLabel|;
            var c := d + |description| + |ContentLabel|;
            && |r| == c + |content| + |PromptTail|
            && r[t..t + |title|] == title
            && r[d..d + |description|] == description
            && r[c..c + |content|] == content
  {
    PromptHead + title + DescriptionLabel + description + ContentLabel + content + PromptTail
  }

  /** The prompt sent: the base prompt, followed by the fallback sentence
      exactly when there is no audio. */
  function FinalPrompt(base: string, hasAudio: bool): (r: string)
    ensures base <= r
    ensures r == base <==> hasAudio
    ensures !hasAudio ==> r[|base|..] == NoAudioNote
  {
    if hasAudio then base else base + NoAudioNote
  }

  /** The request for the model: with audio, one user message holding the
      prompt as a text part and the audio as a base64 file part; without,
      the plain prompt. Both use the same model and system prompt. */
  function BuildRequest(prompt: string, audio: Option<seq<Byte>>, toBase64: seq<Byte> -> string): (r: Request)
    ensures r.model == ModelName && r.system == SystemPrompt
    ensures audio.None? <==> r.input == Prompt(prompt)
    ensures audio.Some? ==>
      && r.input.Messages?
      && |r.input.messages| == 1
      && r.input.messages[0].role == "user"
      && r.input.messages[0].content == [TextPart(prompt), FilePart(toBase64(audio.value), AudioMediaType)]
  {
    if audio.Some? then
      Request(ModelName, SystemPrompt,
              Messages([Message("user", [TextPart(prompt), FilePart(toBase64(audio.value), AudioMediaType)])]))
    else
      Request(ModelName, SystemPrompt, Prompt(prompt))
  }

  /** The result of a generation: its text on success, the catch block's
      message when it throws. */
  function ResultOf(g: Generation): (r: SummaryResult)
    ensures r.Success? <==> g.Generated?
    ensures g.Generated? ==> r.summary == g.text
    ensures g.GenerationThrew? ==> r.error == ErrorMessage(g.thrown)
  {
    match g
    case Generated(text) => Success(text)
    case GenerationThrew(t) => Failure(ErrorMessage(t))
  }

  // ---------------------------------------------------------------------
  // The whole action
  // ---------------------------------------------------------------------

  /** What one run of the action does, given what each outside call
      returns. */
  function Summarization<R>(
    lessonId: string,
    fetchLesson: string -> LessonFetch<R>,
    toPlainText: R -> string,
    fetchAudio: string -> AudioFetch,
    toBase64: seq<Byte> -> string,
    generate: Request -> Generation): (run: Run)
    ensures run.request.Some? <==> fetchLesson(lessonId).Found?
    ensures run.audioUrl.Some? <==> fetchLesson(lessonId).Found? && Truthy(fetchLesson(lessonId).lesson.playbackId)
    ensures run.audioUrl.Some? ==> run.audioUrl == Some(AudioUrl(fetchLesson(lessonId).lesson.playbackId.value))
    ensures run.result.Success? <==> run.request.Some? && generate(run.request.value).Generated?
  {
    match fetchLesson(lessonId)
    case FetchThrew(t) => Run(None, None, Failure(ErrorMessage(t)))
    case Missing => Run(None, None, Failure(ErrorMessage(ErrorValue(LessonNotFound))))
    case Found(lesson) =>
      var url := AudioTarget(lesson.playbackId);
      var audio := if url.Some? then AudioOf(fetchAudio(url.value)) else None;
      var base := PromptText(TitleOf(lesson), DescriptionOf(lesson), ContentOf(lesson, toPlainText));
      var request := BuildRequest(FinalPrompt(base, audio.Some?), audio, toBase64);
      Run(url, Some(request), ResultOf(generate(request)))
  }

  /** `summarizeVideo`, step by step: the `let` variables `audioData` and
      `finalPrompt` are reassigned as in the action, and each `throw`
      inside the `try` ends the run with the catch block's failure. */
  method SummarizeVideo<R>(
    lessonId: string,
    fetchLesson: string -> LessonFetch<R>,
    toPlainText: R -> string,
    fetchAudio: string -> AudioFetch,
    toBase64: seq<Byte> -> string,
    generate: Request -> Generation) returns (run: Run)
    ensures run == Summarization(lessonId, fetchLesson, toPlainText, fetchAudio, toBase64, generate)
  {
    var audioUrl: Option<string> := None;
    var fetched := fetchLesson(lessonId);
    match fetched {
      case FetchThrew(t) =>
        return Run(None, None, Failure(ErrorMessage(t)));
      case Missing =>
        return Run(None, None, Failure(ErrorMessage(ErrorValue(LessonNotFound))));
      case Found(lesson) =>
        var lessonTitle := TitleOf(lesson);
        var lessonDescription := DescriptionOf(lesson);
        var lessonContent := ContentOf(lesson, toPlainText);

        var audioData: Option<seq<Byte>> := None;
        var playbackId := lesson.playbackId;
        if playbackId.Some? && playbackId.value != "" {
          var url := AudioUrl(playbackId.value);
          audioUrl := Some(url);
          match fetchAudio(url) {
            case AudioOk(bytes) =>
              audioData := Some(bytes);
            case AudioNotOk(_) =>
            case AudioThrew =>
          }
        }

        assert audioUrl == AudioTarget(lesson.playbackId);
        assert audioData == if audioUrl.Some? then AudioOf(fetchAudio(audioUrl.value)) else None;
        var promptText := PromptText(lessonTitle, lessonDescription, lessonContent);
        var finalPrompt := promptText;
        if audioData.None? {
          finalPrompt := finalPrompt + NoAudioNote;
        }

        var sent := BuildRequest(finalPrompt, audioData, toBase64);
        match generate(sent) {
          case Generated(summary) =>
            return Run(audioUrl, Some(sent), Success(summary));
          case GenerationThrew(t) =>
            return Run(audioUrl, Some(sent), Failure(ErrorMessage(t)));
        }
    }
  }

  // ---------------------------------------------------------------------
  // What a run promises
  // ---------------------------------------------------------------------

  /** A missing lesson is fatal: the action fails with "Lesson not found"
      before any audio fetch or generation. */
  lemma MissingLessonFails<R>(
    lessonId: string, fetchLesson: string -> LessonFetch<R>, toPlainText: R -> string,
    fetchAudio: string -> AudioFetch, toBase64: seq<Byte> -> string, generate: Request -> Generation)
    requires fetchLesson(lessonId).Missing?
    ensures Summarization(lessonId, fetchLesson, toPlainText, fetchAudio, toBase64, generate)
         == Run(None, None, Failure(LessonNotFound))
  {
  }

  /** A failing lesson query fails the action with the thrown error's
      message, before any audio fetch or generation. */
  lemma LessonQueryThrowFails<R>(
    lessonId: string, fetchLesson: string -> LessonFetch<R>, toPlainText: R -> string,
    fetchAudio: string -> AudioFetch, toBase64: seq<Byte> -> string, generate: Request -> Generation)
    requires fetchLesson(lessonId).FetchThrew?
    ensures Summarization(lessonId, fetchLesson, toPlainText, fetchAudio, toBase64, generate)
         == Run(None, None, Failure(ErrorMessage(fetchLesson(lessonId).thrown)))
  {
  }

  /** Without audio — no playback id, a response that is not `ok`, or a
      failed fetch — the action still asks the model, with the plain prompt
      and the fallback sentence, and fails only if the model call does. */
  lemma NoAudioFallsBack<R>(
    lessonId: string, fetchLesson: string -> LessonFetch<R>, toPlainText: R -> string,
    fetchAudio: string -> AudioFetch, toBase64: seq<Byte> -> string, generate: Request -> Generation)
    requires fetchLesson(lessonId).Found?
    requires var p := fetchLesson(lessonId).lesson.playbackId;
             !Truthy(p) || !fetchAudio(AudioUrl(p.value)).AudioOk?
    ensures var lesson := fetchLesson(lessonId).lesson;
            var base := PromptText(TitleOf(lesson), DescriptionOf(lesson), ContentOf(lesson, toPlainText));
            var request := Request(ModelName, SystemPrompt, Prompt(base + NoAudioNote));
            var run := Summarization(lessonId, fetchLesson, toPlainText, fetchAudio, toBase64, generate);
            run.request == Some(request) && run.result == ResultOf(generate(request))
  {
  }

  /** With audio, the model gets one user message: the prompt without the
      fallback sentence, then the audio as a base64 `audio/m4a` file. */
  lemma AudioIsAttached<R>(
    lessonId: string, fetchLesson: string -> LessonFetch<R>, toPlainText: R -> string,
    fetchAudio: string -> AudioFetch, toBase64: seq<Byte> -> string, generate: Request -> Generation)
    requires fetchLesson(lessonId).Found?
    requires var p := fetchLesson(lessonId).lesson.playbackId;
             Truthy(p) && fetchAudio(AudioUrl(p.value)).AudioOk?
    ensures var lesson := fetchLesson(lessonId).lesson;
            var bytes := fetchAudio(AudioUrl(lesson.playbackId.value)).bytes;
            var base := PromptText(TitleOf(lesson), DescriptionOf(lesson), ContentOf(lesson, toPlainText));
            var parts := [TextPart(base), FilePart(toBase64(bytes), AudioMediaType)];
            var request := Request(ModelName, SystemPrompt, Messages([Message("user", parts)]));
            var run := Summarization(lessonId, fetchLesson, toPlainText, fetchAudio, toBase64, generate);
            run.request == Some(request) && run.result == ResultOf(generate(request))
  {
  }
}
