/** The per-browser-session state of the page and the events that change
    it: logging in, uploading a document, creating and selecting
    conversations, editing the tone directive and asking a question. */
module SessionState {
  import opened Wrappers
  import opened Text
  import opened Extraction
  import opened Conversation
  import opened RequestAssembly

  /** The tone directive a session starts with and a reset returns to. */
  const DefaultTone: string := "Rispondi in modo sintetico, chiaro e professionale."

  /** What the document libraries give back for the uploaded bytes: the
      text of every page of a PDF, and the cells of every data row of a
      spreadsheet, each already turned into text. `None` stands for a
      library call that raises. */
  datatype FileReadings = FileReadings(pdfPages: Option<seq<string>>, sheetRows: Option<seq<seq<string>>>)

  datatype UploadOutcome =
    | Stored(kind: FileKind)
    | ParseFailed(kind: FileKind)
    | Ignored

  /** How a submitted question ends. `chat` is the position of the selected
      conversation and `request` the messages sent to the model. */
  datatype SubmitOutcome =
    | NoChatSelected
    | ChatNotFound
    | NoInput
    | StreamFailed(chat: nat, request: seq<Message>)
    | Replied(chat: nat, request: seq<Message>, reply: string)

  /** A selection the page treats as present: neither `None` nor the empty
      name, both of which Python reads as false. */
  predicate Selected(selection: Option<string>)
  {
    selection.Some? && selection.value != ""
  }

  /** Where a question goes before the model is called. */
  datatype Route = NoSelection | UnknownChat | EmptyInput | Ask(chat: nat)

  /** The checks of the chat branch in order: no selection, then the
      lookup of the selected name, then the empty input. */
  function RouteOf(chats: seq<Chat>, selection: Option<string>, input: string): (r: Route)
    ensures r.Ask? ==> r.chat < |chats|
  {
    if !Selected(selection) then NoSelection
    else match FindChat(chats, selection.value)
      case None => UnknownChat
      case Some(i) => if input == "" then EmptyInput else Ask(i)
  }

  /** The four ways are decided by the selection, the existence of a
      conversation with the selected name, and the input, each in turn; a
      question reaches the first conversation of that name, which under
      sequential naming is the one at position `n - 1` for the `n`-th name. */
  lemma RouteSpec(chats: seq<Chat>, selection: Option<string>, input: string)
    ensures RouteOf(chats, selection, input) == NoSelection <==> !Selected(selection)
    ensures RouteOf(chats, selection, input) == UnknownChat <==>
      Selected(selection) && forall j :: 0 <= j < |chats| ==> chats[j].id != selection.value
    ensures RouteOf(chats, selection, input) == EmptyInput <==>
      && Selected(selection)
      && (exists j :: 0 <= j < |chats| && chats[j].id == selection.value)
      && input == ""
    ensures RouteOf(chats, selection, input).Ask? ==>
      var i := RouteOf(chats, selection, input).chat;
      && Selected(selection) && input != "" && chats[i].id == selection.value
      && forall j :: 0 <= j < i ==> chats[j].id != selection.value
    ensures forall n: nat :: SequentialIds(chats) && selection == Some(ChatId(n)) && 1 <= n <= |chats| && input != "" ==>
      RouteOf(chats, selection, input) == Ask(n - 1)
  {
    forall n: nat | SequentialIds(chats) && selection == Some(ChatId(n)) && 1 <= n <= |chats| && input != ""
      ensures RouteOf(chats, selection, input) == Ask(n - 1)
    {
      SequentialIdsDistinct(chats, n);
      assert chats[n - 1].id == ChatId(n);
    }
  }

  class Session {
    var authenticated: bool
    var chats: seq<Chat>
    var selectedChat: Option<string>
    var pdfText: string
    var toneOfVoice: string

    /** Conversations are named after their position, and none of them
        holds a system message. */
    predicate Valid()
      reads this`chats
    {
      WellFormed(chats)
    }

    /** The selected name, if any, belongs to an existing conversation. */
    predicate SelectionResolves()
      reads this`chats, this`selectedChat
    {
      selectedChat.Some? ==> exists i :: 0 <= i < |chats| && chats[i].id == selectedChat.value
    }

    /** The state of a fresh session. */
    constructor ()
      ensures !authenticated && chats == [] && selectedChat == None
      ensures pdfText == "" && toneOfVoice == DefaultTone
      ensures Valid() && SelectionResolves()
    {
      authenticated := false;
      chats := [];
      selectedChat := None;
      pdfText := "";
      toneOfVoice := DefaultTone;
    }

    /** The login form: the password unlocks the session exactly when it
        equals the configured secret. */
    method Authenticate(password: string, secret: string) returns (accepted: bool)
      requires !authenticated
      modifies this`authenticated
      ensures accepted == (password == secret)
      ensures authenticated == accepted
    {
      accepted := password == secret;
      if accepted {
        authenticated := true;
      }
    }

    /** An upload: a PDF replaces the document text by its pages joined with
        newlines, a spreadsheet by its flattened rows; when the library
        raises, or the extension is neither, the document text stays. */
    method UploadFile(name: string, readings: FileReadings) returns (outcome: UploadOutcome)
      requires authenticated
      modifies this`pdfText
      ensures Classify(name) == PdfFile ==>
        if readings.pdfPages.Some?
        then outcome == Stored(PdfFile) && pdfText == PdfText(readings.pdfPages.value)
        else outcome == ParseFailed(PdfFile) && pdfText == old(pdfText)
      ensures Classify(name) == SpreadsheetFile ==>
        if readings.sheetRows.Some?
        then outcome == Stored(SpreadsheetFile) && pdfText == SheetText(readings.sheetRows.value)
        else outcome == ParseFailed(SpreadsheetFile) && pdfText == old(pdfText)
      ensures Classify(name) == OtherFile ==> outcome == Ignored && pdfText == old(pdfText)
    {
      var kind := Classify(name);
      if kind == PdfFile {
        match readings.pdfPages {
          case None =>
            outcome := ParseFailed(PdfFile);
          case Some(pages) =>
            pdfText := PdfText(pages);
            outcome := Stored(PdfFile);
        }
      } else if kind == SpreadsheetFile {
        match readings.sheetRows {
          case None =>
            outcome := ParseFailed(SpreadsheetFile);
          case Some(rows) =>
            pdfText := SheetText(rows);
            outcome := Stored(SpreadsheetFile);
        }
      } else {
        outcome := Ignored;
      }
    }

    /** The "new conversation" button: an empty conversation named after the
        new count is appended and selected. The name is not yet taken. */
    method NewConversation()
      requires authenticated && Valid()
      modifies this`chats, this`selectedChat
      ensures chats == old(chats) + [Chat(ChatId(|old(chats)| + 1), [])]
      ensures selectedChat == Some(ChatId(|old(chats)| + 1))
      ensures forall i :: 0 <= i < |old(chats)| ==> old(chats)[i].id != ChatId(|old(chats)| + 1)
      ensures Valid() && SelectionResolves()
    {
      NewChatFresh(chats);
      var id := ChatId(|chats| + 1);
      chats := chats + [Chat(id, [])];
      selectedChat := Some(id);
      assert chats[|chats| - 1].id == id;
    }

    /** The button of the `k`-th conversation selects it. */
    method SelectConversation(k: nat)
      requires authenticated && Valid() && k < |chats|
      modifies this`selectedChat
      ensures selectedChat == Some(chats[k].id)
      ensures SelectionResolves()
    {
      selectedChat := Some(chats[k].id);
    }

    /** "Save changes": the edited directive becomes the tone. */
    method SaveTone(edited: string)
      requires authenticated
      modifies this`toneOfVoice
      ensures toneOfVoice == edited
    {
      toneOfVoice := edited;
    }

    /** "Restore default": the tone goes back to the fixed default text. */
    method ResetTone()
      requires authenticated
      modifies this`toneOfVoice
      ensures toneOfVoice == DefaultTone
    {
      toneOfVoice := DefaultTone;
    }

    /** A question typed into the chat box, routed by `RouteOf`. Without a
        selection, with a selection that names no conversation (where the
        page raises) and with an empty input nothing changes. Otherwise the
        question is appended to the selected conversation, the request is
        built from the document text, the tone and the conversation
        including the question, and the model's answer, when the stream
        delivers one, is appended after the question. `complete` stands for
        the streaming call to the model. */
    method Submit(input: string, complete: seq<Message> -> Option<string>)
      returns (outcome: SubmitOutcome)
      requires authenticated && Valid()
      modifies this`chats
      ensures Valid()
      ensures old(SelectionResolves()) ==> SelectionResolves()
      ensures old(SelectionResolves()) ==> outcome != ChatNotFound
      ensures RouteOf(old(chats), selectedChat, input) == NoSelection ==>
        outcome == NoChatSelected && chats == old(chats)
      ensures RouteOf(old(chats), selectedChat, input) == UnknownChat ==>
        outcome == ChatNotFound && chats == old(chats)
      ensures RouteOf(old(chats), selectedChat, input) == EmptyInput ==>
        outcome == NoInput && chats == old(chats)
      ensures RouteOf(old(chats), selectedChat, input).Ask? ==>
        && var i := RouteOf(old(chats), selectedChat, input).chat;
        && var request := Request(pdfText, toneOfVoice, old(chats)[i].messages + [Message(User, input)]);
        && var answer := complete(request);
        && outcome == (if answer.Some? then Replied(i, request, answer.value) else StreamFailed(i, request))
        && chats == old(chats)[i := WithExchange(old(chats)[i], input, answer)]
    {
      var route := RouteOf(chats, selectedChat, input);
      if route == NoSelection {
        return NoChatSelected;
      } else if route == UnknownChat {
        return ChatNotFound;
      } else if route == EmptyInput {
        return NoInput;
      }
      var i := route.chat;
      var before := chats;
      ExchangeKeepsInvariant(before, i, input, None);
      chats := before[i := WithExchange(before[i], input, None)];
      var request := AssembleRequest(pdfText, toneOfVoice, chats[i].messages);
      var answer := complete(request);
      match answer {
        case None =>
          outcome := StreamFailed(i, request);
        case Some(reply) =>
          ExchangeKeepsInvariant(before, i, input, answer);
          chats := before[i := WithExchange(before[i], input, answer)];
          outcome := Replied(i, request, reply);
      }
    }
  }

  /** The first steps of a visit: log in and upload a two-page PDF under
      any name that classifies as a PDF (such as "verbale.pdf", see
      `ClassifyPdf`). */
  method StartWithPdf(name: string) returns (session: Session)
    requires Classify(name) == PdfFile
    ensures fresh(session)
    ensures session.authenticated && session.Valid() && session.chats == []
    ensures session.pdfText == "Hello\nWorld" && session.toneOfVoice == DefaultTone
  {
    session := new Session();
    var accepted := session.Authenticate("segreto", "segreto");
    PdfTextTwoPages();
    var upload := session.UploadFile(name, FileReadings(Some(["Hello", "World"]), None));
  }

  /** Open the first conversation and select it. */
  method OpenFirstConversation(session: Session)
    requires session.authenticated && session.Valid() && session.chats == []
    modifies session
    ensures session.authenticated && session.Valid()
    ensures |session.chats| == 1 && session.chats[0].messages == []
    ensures session.selectedChat == Some(session.chats[0].id) && Selected(session.selectedChat)
    ensures session.pdfText == old(session.pdfText) && session.toneOfVoice == old(session.toneOfVoice)
  {
    session.NewConversation();
    session.SelectConversation(0);
  }

  /** The first question of a conversation reaches the model as the system
      messages followed by that question alone. */
  method AskFirstQuestion(session: Session, question: string, complete: seq<Message> -> Option<string>)
    returns (outcome: SubmitOutcome)
    requires session.authenticated && session.Valid()
    requires |session.chats| == 1 && session.chats[0].messages == []
    requires session.selectedChat == Some(session.chats[0].id) && Selected(session.selectedChat)
    requires question != ""
    modifies session
    ensures session.pdfText == old(session.pdfText) && session.toneOfVoice == old(session.toneOfVoice)
    ensures outcome.StreamFailed? || outcome.Replied?
    ensures outcome.StreamFailed? || outcome.Replied? ==>
      outcome.request == Request(session.pdfText, session.toneOfVoice, [Message(User, question)])
    ensures outcome.StreamFailed? || outcome.Replied? ==>
      && outcome.chat == 0
      && session.chats == [WithExchange(old(session.chats)[0], question, complete(outcome.request))]
  {
    var before := session.chats;
    assert RouteOf(before, session.selectedChat, question) == Ask(0);
    outcome := session.Submit(question, complete);
    var history := before[0].messages + [Message(User, question)];
    assert history == [Message(User, question)];
    var answer := complete(Request(session.pdfText, session.toneOfVoice, history));
    assert session.chats == before[0 := WithExchange(before[0], question, answer)];
    assert before[0 := WithExchange(before[0], question, answer)] == [WithExchange(before[0], question, answer)];
  }

  /** A whole visit: after the first steps, a question. The model receives
      the document, the default tone and the question, in that order. */
  method AskAboutUploadedPdf(name: string, complete: seq<Message> -> Option<string>)
    returns (outcome: SubmitOutcome)
    requires Classify(name) == PdfFile
    ensures outcome.StreamFailed? || outcome.Replied?
    ensures outcome.StreamFailed? || outcome.Replied? ==>
      outcome.request == [DocumentMessage("Hello\nWorld"), ToneMessage(DefaultTone), Message(User, "What is X?")]
  {
    var session := StartWithPdf(name);
    OpenFirstConversation(session);
    outcome := AskFirstQuestion(session, "What is X?", complete);
    assert DefaultTone != "";
    RequestWithContext("Hello\nWorld", DefaultTone, [Message(User, "What is X?")]);
  }
}
