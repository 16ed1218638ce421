/**
  The chat component's session: the transcript, the text box, the busy flag and the upload
  status line, and the two asynchronous handlers that change them.

  Each handler runs in two steps separated by its `await fetch(...)`: the part before the
  request is sent (`Submit`, `PickFile`) and the part that runs when the request settles
  (`FinishSend`, `FinishUpload`), the latter taking the request's outcome as a parameter.
  Between the two steps the request is "in flight"; the model records such requests in
  `inFlight`, which the component keeps only implicitly as suspended handlers.
*/
module ChatSession {
  import opened Wrappers
  import opened JsString
  import BoldFormat

  datatype Role = User | Assistant

  /** One chat turn.  The timestamp-derived `id` is not modelled. */
  datatype Message = Message(role: Role, content: string)

  /**
    How a request settles: the text field of the JSON reply (`response` for the chat
    endpoint, `message` for the upload endpoint), or a failure of any kind (network error,
    status other than 2xx, unreadable body).
  */
  datatype Outcome = Ok(text: string) | Fail

  /** A request that has been sent and whose handler waits for it. */
  datatype Request = ChatRequest(message: string) | UploadRequest(fileName: string)

  datatype Session = Session(
    messages: seq<Message>,
    input: string,
    isLoading: bool,
    uploadStatus: string,
    inFlight: seq<Request>)

  /** The reply shown when the chat request fails. */
  const Apology: string := "Desculpe, ocorreu um erro ao processar sua mensagem. Por favor, tente novamente."
  /** Status for a file whose name does not end in `.csv`. */
  const CsvOnly: string := "Erro: Apenas arquivos CSV s\U{e3}o permitidos."
  /** Status while an upload is in flight. */
  const SendingFile: string := "Enviando arquivo..."
  /** Status when the upload request fails. */
  const UploadError: string := "Erro ao enviar arquivo. Tente novamente."

  /** Status after a successful upload, carrying the endpoint's message. */
  function UploadSuccess(backend: string): string {
    "Sucesso: " + backend
  }

  /** The assistant turn added after a successful upload. */
  function UploadNotice(fileName: string, backend: string): string {
    "Arquivo \"" + fileName + "\" foi carregado com sucesso. " + backend
  }

  /** The state when the component mounts. */
  const Initial: Session := Session([], "", false, "", [])

  function RemoveAt<T>(s: seq<T>, i: nat): seq<T>
    requires i < |s|
  {
    s[..i] + s[i + 1..]
  }

  // ---------------------------------------------------------------------------------------
  // handleSendMessage

  /** The early return of `handleSendMessage`: blank text, or a request already running. */
  predicate SendRejected(st: Session) {
    Trim(st.input) == [] || st.isLoading
  }

  /** `handleSendMessage` up to its `await`: record the question, clear the box, go busy. */
  function Submit(st: Session): Session {
    if SendRejected(st) then st
    else
      var text := Trim(st.input);
      st.(messages := st.messages + [Message(User, text)], input := "", isLoading := true,
          inFlight := st.inFlight + [ChatRequest(text)])
  }

  /** The assistant turn for a settled chat request: the reply text, or the apology. */
  function Reply(outcome: Outcome): string {
    match outcome
    case Ok(text) => text
    case Fail => Apology
  }

  /** `handleSendMessage` after its `await`: append the reply, and release the busy flag. */
  function FinishSend(st: Session, i: nat, outcome: Outcome): Session
    requires i < |st.inFlight| && st.inFlight[i].ChatRequest?
  {
    st.(messages := st.messages + [Message(Assistant, Reply(outcome))], isLoading := false,
        inFlight := RemoveAt(st.inFlight, i))
  }

  // ---------------------------------------------------------------------------------------
  // handleFileUpload

  /**
    `handleFileUpload` up to its `await`: nothing without a file, an error status for a name
    not ending in `.csv`, otherwise the "sending" status and busy.  It does not look at
    `isLoading`.
  */
  function PickFile(st: Session, file: Option<string>): Session {
    match file
    case None => st
    case Some(name) =>
      if !EndsWith(name, ".csv") then st.(uploadStatus := CsvOnly)
      else st.(uploadStatus := SendingFile, isLoading := true,
               inFlight := st.inFlight + [UploadRequest(name)])
  }

  /**
    `handleFileUpload` after its `await`: on success a status with the endpoint's message and
    one assistant turn naming the file, on failure only an error status; busy released either way.
  */
  function FinishUpload(st: Session, i: nat, outcome: Outcome): Session
    requires i < |st.inFlight| && st.inFlight[i].UploadRequest?
  {
    var name := st.inFlight[i].fileName;
    var settled := st.(isLoading := false, inFlight := RemoveAt(st.inFlight, i));
    match outcome
    case Ok(backend) =>
      settled.(uploadStatus := UploadSuccess(backend),
               messages := st.messages + [Message(Assistant, UploadNotice(name, backend))])
    case Fail => settled.(uploadStatus := UploadError)
  }

  /** The 3-second timer callback after an upload settles. */
  function ClearStatus(st: Session): Session {
    st.(uploadStatus := "")
  }

  /** The text box's `onChange`. */
  function EditInput(st: Session, text: string): Session {
    st.(input := text)
  }

  // ---------------------------------------------------------------------------------------
  // Properties of the handlers

  /** `handleSendMessage` changes nothing exactly when its guard returns early. */
  lemma SendRejectedIsNoOp(st: Session)
    ensures Submit(st) == st <==> SendRejected(st)
  {
    if !SendRejected(st) {
      assert |Submit(st).messages| == |st.messages| + 1;
    }
  }

  /**
    An accepted send followed by its settlement appends exactly the trimmed question and one
    assistant turn (the reply or the apology), leaves earlier turns and the status alone,
    clears the box and ends not busy.
  */
  lemma SendRoundTrip(st: Session, outcome: Outcome)
    requires !SendRejected(st)
    ensures var sent := Submit(st);
      var done := FinishSend(sent, |sent.inFlight| - 1, outcome);
      var question := Trim(st.input);
      sent.isLoading && sent.input == "" &&
      sent.messages == st.messages + [Message(User, question)] &&
      question != [] && !IsTrimmable(question[0]) && !IsTrimmable(question[|question| - 1]) &&
      done.messages == st.messages + [Message(User, question), Message(Assistant, Reply(outcome))] &&
      (outcome.Fail? ==> done.messages[|st.messages| + 1].content == Apology) &&
      done.input == "" && !done.isLoading && done.inFlight == st.inFlight &&
      done.uploadStatus == st.uploadStatus
  {
    var sent := Submit(st);
    assert RemoveAt(sent.inFlight, |sent.inFlight| - 1) == st.inFlight;
  }

  /**
    A picked file starts a request exactly when its name ends in `.csv`; otherwise only the
    status changes, to the fixed error text.
  */
  lemma PickFileGuard(st: Session, name: string)
    ensures var picked := PickFile(st, Some(name));
      (|picked.inFlight| == |st.inFlight| + 1 <==> EndsWith(name, ".csv")) &&
      (!EndsWith(name, ".csv") ==>
         picked.uploadStatus == CsvOnly && picked.messages == st.messages &&
         picked.isLoading == st.isLoading && picked.inFlight == st.inFlight &&
         picked.input == st.input) &&
      (EndsWith(name, ".csv") ==>
         picked.uploadStatus == SendingFile && picked.isLoading &&
         picked.inFlight == st.inFlight + [UploadRequest(name)] && picked.messages == st.messages)
  {
  }

  /**
    An upload of a `.csv` file, once settled: success appends one assistant turn that names
    the file and ends with the endpoint's message, failure appends none; busy is released and
    the in-flight requests are as before.
  */
  lemma UploadRoundTrip(st: Session, name: string, outcome: Outcome)
    requires EndsWith(name, ".csv")
    ensures var sent := PickFile(st, Some(name));
      var done := FinishUpload(sent, |sent.inFlight| - 1, outcome);
      !done.isLoading && done.inFlight == st.inFlight && done.input == st.input &&
      (outcome.Fail? ==> done.messages == st.messages && done.uploadStatus == UploadError) &&
      (outcome.Ok? ==>
         |done.messages| == |st.messages| + 1 && done.messages[..|st.messages|] == st.messages &&
         var notice := done.messages[|st.messages|];
         notice.role == Assistant &&
         notice.content[9..9 + |name|] == name && EndsWith(notice.content, outcome.text) &&
         done.uploadStatus == UploadSuccess(outcome.text))
  {
    var sent := PickFile(st, Some(name));
    assert RemoveAt(sent.inFlight, |sent.inFlight| - 1) == st.inFlight;
    if outcome.Ok? {
      var notice := UploadNotice(name, outcome.text);
      assert notice == ("Arquivo \"" + name) + "\" foi carregado com sucesso. " + outcome.text;
      assert notice[9..9 + |name|] == name;
    }
  }

  /** `report.csv` is sent; `report.txt` only sets the error status (lines 73-81). */
  lemma ExampleReportFiles(st: Session)
    ensures PickFile(st, Some("report.csv")).inFlight == st.inFlight + [UploadRequest("report.csv")]
    ensures PickFile(st, Some("report.txt")) == st.(uploadStatus := CsvOnly)
  {
    assert EndsWith("report.csv", ".csv");
    assert "report.txt"[6..] != ".csv" by {
      assert "report.txt"[6..][1] == 't';
    }
  }

  // ---------------------------------------------------------------------------------------
  // The page: the handlers as the rendered controls allow them to run

  /** What can happen to the page. */
  datatype Event =
    | Typed(text: string)            // the text box's onChange
    | SubmitForm                     // the form's onSubmit
    | FilePicked(file: Option<string>)  // the hidden file input's onChange, via the clip button
    | Responded(outcome: Outcome)    // the request in flight settles
    | StatusTimerFired               // a 3-second status timer fires

  /**
    One event.  The text box and the clip button are disabled while busy, so typing and picking
    a file do nothing then; the form runs `handleSendMessage`, whose own guard applies.
  */
  function Step(st: Session, ev: Event): Session {
    match ev
    case Typed(text) => if st.isLoading then st else EditInput(st, text)
    case SubmitForm => Submit(st)
    case FilePicked(file) => if st.isLoading then st else PickFile(st, file)
    case Responded(outcome) =>
      if st.inFlight == [] then st
      else if st.inFlight[0].ChatRequest? then FinishSend(st, 0, outcome)
      else FinishUpload(st, 0, outcome)
    case StatusTimerFired => ClearStatus(st)
  }

  function Run(st: Session, events: seq<Event>): Session
    decreases |events|
  {
    if events == [] then st else Run(Step(st, events[0]), events[1..])
  }

  /** At most one request in flight, and the busy flag says whether there is one. */
  predicate SingleFlight(st: Session) {
    |st.inFlight| <= 1 && (st.isLoading <==> st.inFlight != [])
  }

  /** Every question except possibly the last turn is followed by an assistant turn. */
  predicate Answered(messages: seq<Message>) {
    forall i :: 0 <= i < |messages| - 1 && messages[i].role == User ==>
      messages[i + 1].role == Assistant
  }

  /** The last turn is a question. */
  predicate EndsWithQuestion(messages: seq<Message>) {
    messages != [] && messages[|messages| - 1].role == User
  }

  /**
    Every question is answered by the turn right after it, except a last question whose own
    chat request is in flight; and a chat request in flight is for the last turn.
  */
  predicate RepliesFollow(st: Session) {
    Answered(st.messages) &&
    (EndsWithQuestion(st.messages) ==>
       st.inFlight == [ChatRequest(st.messages[|st.messages| - 1].content)]) &&
    (|st.inFlight| == 1 && st.inFlight[0].ChatRequest? ==>
       st.messages != [] && st.messages[|st.messages| - 1] == Message(User, st.inFlight[0].message))
  }

  predicate Valid(st: Session) {
    SingleFlight(st) && RepliesFollow(st)
  }

  lemma InitialValid()
    ensures Valid(Initial)
  {
  }

  /** Appending a turn keeps every question answered unless a question follows a question. */
  lemma AnsweredAppend(messages: seq<Message>, m: Message)
    requires Answered(messages)
    requires !EndsWithQuestion(messages) || m.role == Assistant
    ensures Answered(messages + [m])
  {
    var extended := messages + [m];
    forall i | 0 <= i < |extended| - 1 && extended[i].role == User
      ensures extended[i + 1].role == Assistant
    {
      if i + 1 < |messages| {
        assert extended[i] == messages[i] && extended[i + 1] == messages[i + 1];
      }
    }
  }

  /** Every event keeps the page's invariant and only ever appends to the transcript. */
  lemma StepPreservesValid(st: Session, ev: Event)
    requires Valid(st)
    ensures Valid(Step(st, ev))
    ensures st.messages <= Step(st, ev).messages
  {
    match ev
    case SubmitForm =>
      if !SendRejected(st) {
        AnsweredAppend(st.messages, Message(User, Trim(st.input)));
      }
    case Responded(outcome) =>
      if st.inFlight != [] {
        if st.inFlight[0].ChatRequest? {
          AnsweredAppend(st.messages, Message(Assistant, Reply(outcome)));
        } else if outcome.Ok? {
          AnsweredAppend(st.messages, Message(Assistant, UploadNotice(st.inFlight[0].fileName, outcome.text)));
        }
      }
    case _ =>
  }

  /** Any run of events from a valid state stays valid and keeps every earlier turn. */
  lemma {:induction false} RunPreservesValid(st: Session, events: seq<Event>)
    requires Valid(st)
    ensures Valid(Run(st, events))
    ensures st.messages <= Run(st, events).messages
    decreases |events|
  {
    if events != [] {
      StepPreservesValid(st, events[0]);
      RunPreservesValid(Step(st, events[0]), events[1..]);
    }
  }

  /**
    `handleFileUpload` called while a chat request is in flight (which the disabled clip
    button alone prevents) starts a second request; when the upload settles first, the busy
    flag drops while the question is still unanswered, and the upload notice becomes the turn
    after the question.
  */
  lemma UploadWhileBusy(text: string, name: string, backend: string)
    requires Trim(text) != [] && EndsWith(name, ".csv")
    ensures var asked := Submit(EditInput(Initial, text));
      var both := PickFile(asked, Some(name));
      var uploaded := FinishUpload(both, 1, Ok(backend));
      Valid(asked) && asked.isLoading &&
      |both.inFlight| == 2 && !SingleFlight(both) &&
      !uploaded.isLoading && uploaded.inFlight == [ChatRequest(Trim(text))] &&
      !SingleFlight(uploaded) && !RepliesFollow(uploaded) &&
      uploaded.messages == [Message(User, Trim(text)), Message(Assistant, UploadNotice(name, backend))]
  {
    var question := Message(User, Trim(text));
    var asked := Submit(EditInput(Initial, text));
    assert asked == Session([question], "", true, "", [ChatRequest(Trim(text))]);
    assert Valid(asked);
    var both := PickFile(asked, Some(name));
    assert both.inFlight == [ChatRequest(Trim(text)), UploadRequest(name)];
    var uploaded := FinishUpload(both, 1, Ok(backend));
    assert uploaded.inFlight == [ChatRequest(Trim(text))] by {
      assert RemoveAt(both.inFlight, 1) == [ChatRequest(Trim(text))];
    }
    assert uploaded.messages == [question, Message(Assistant, UploadNotice(name, backend))];
    assert !RepliesFollow(uploaded) by {
      assert uploaded.messages[|uploaded.messages| - 1] != question;
    }
  }

  /**
    The end-to-end example: the user asks "What was Q1 revenue?", the endpoint answers
    "Q1 revenue was **$2M**"; the transcript holds the question and the answer, and the answer
    renders as plain text followed by bold "$2M".
  */
  lemma ScenarioRevenue()
    ensures var q, r := "What was Q1 revenue?", "Q1 revenue was **$2M**";
      var done := Run(Initial, [Typed(q), SubmitForm, Responded(Ok(r))]);
      done.messages == [Message(User, q), Message(Assistant, r)] && !done.isLoading &&
      BoldFormat.FormatMessageContent(done.messages[1].content) ==
        [BoldFormat.Plain("Q1 revenue was "), BoldFormat.Bold("$2M"), BoldFormat.Plain("")]
  {
    var q, r := "What was Q1 revenue?", "Q1 revenue was **$2M**";
    TrimKeeps(q);
    var typed := Step(Initial, Typed(q));
    assert typed == Session([], q, false, "", []);
    var sent := Step(typed, SubmitForm);
    assert sent == Session([Message(User, q)], "", true, "", [ChatRequest(q)]);
    var done := Step(sent, Responded(Ok(r)));
    assert done == Session([Message(User, q), Message(Assistant, r)], "", false, "", []);
    var events := [Typed(q), SubmitForm, Responded(Ok(r))];
    assert Run(done, []) == done;
    assert Run(sent, events[2..]) == done by {
      assert events[2..][1..] == [];
    }
    assert Run(typed, events[1..]) == done by {
      assert events[1..][1..] == events[2..];
    }
    assert Run(Initial, events) == done;
    BoldFormat.ExampleTrailing();
  }

  // ---------------------------------------------------------------------------------------
  // The component

  /** The component instance: its four pieces of state, updated in place by the handlers. */
  class ChatInterface {
    var messages: seq<Message>
    var input: string
    var isLoading: bool
    var uploadStatus: string
    /** Requests sent whose handler has not yet resumed. */
    ghost var inFlight: seq<Request>

    ghost function State(): Session
      reads this
    {
      Session(messages, input, isLoading, uploadStatus, inFlight)
    }

    constructor ()
      ensures State() == Initial
    {
      messages, input, isLoading, uploadStatus := [], "", false, "";
      inFlight := [];
    }

    /** The text box's `onChange`. */
    method SetInput(text: string)
      modifies this
      ensures State() == EditInput(old(State()), text)
    {
      input := text;
    }

    /**
      `handleSendMessage` up to its `await`; `posted` is the text sent to the chat endpoint,
      if any.
    */
    method HandleSendMessage() returns (posted: Option<string>)
      modifies this
      ensures State() == Submit(old(State()))
      ensures posted == if SendRejected(old(State())) then None else Some(Trim(old(input)))
    {
      var text := Trim(input);
      if text == [] || isLoading {
        posted := None;
        return;
      }
      messages := messages + [Message(User, text)];
      input := "";
      isLoading := true;
      inFlight := inFlight + [ChatRequest(text)];
      posted := Some(text);
    }

    /** `handleSendMessage` resumed when request i settles. */
    method ResumeSendMessage(i: nat, outcome: Outcome)
      requires i < |inFlight| && inFlight[i].ChatRequest?
      modifies this
      ensures State() == FinishSend(old(State()), i, outcome)
    {
      var reply: Message;
      match outcome {
        case Ok(text) => reply := Message(Assistant, text);
        case Fail => reply := Message(Assistant, Apology);
      }
      messages := messages + [reply];
      isLoading := false;
      inFlight := RemoveAt(inFlight, i);
    }

    /**
      `handleFileUpload` up to its `await`; `posted` is the name of the file sent to the
      upload endpoint, if any.
    */
    method HandleFileUpload(file: Option<string>) returns (posted: Option<string>)
      modifies this
      ensures State() == PickFile(old(State()), file)
      ensures posted == if file.Some? && EndsWith(file.value, ".csv") then file else None
    {
      if file.None? {
        posted := None;
        return;
      }
      var name := file.value;
      if !EndsWith(name, ".csv") {
        uploadStatus := CsvOnly;
        posted := None;
        return;
      }
      uploadStatus := SendingFile;
      isLoading := true;
      inFlight := inFlight + [UploadRequest(name)];
      posted := Some(name);
    }

    /**
      `handleFileUpload` resumed when request i settles; `name` is the name of the file its
      suspended call holds.
    */
    method ResumeFileUpload(i: nat, name: string, outcome: Outcome)
      requires i < |inFlight| && inFlight[i] == UploadRequest(name)
      modifies this
      ensures State() == FinishUpload(old(State()), i, outcome)
    {
      match outcome {
        case Ok(backend) =>
          uploadStatus := UploadSuccess(backend);
          messages := messages + [Message(Assistant, UploadNotice(name, backend))];
        case Fail =>
          uploadStatus := UploadError;
      }
      isLoading := false;
      inFlight := RemoveAt(inFlight, i);
    }

    /** The status timer's callback. */
    method ClearUploadStatus()
      modifies this
      ensures State() == ClearStatus(old(State()))
    {
      uploadStatus := "";
    }
  }
}
