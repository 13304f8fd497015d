/** The list of messages sent to the model for one question: an optional
    system message carrying the uploaded document, an optional system
    message carrying the tone directive, then the whole conversation. */
module RequestAssembly {
  import opened Conversation

  // The prefix is written as two literals only so that the verifier can
  // reason about its characters; the text is one sentence.
  const DocumentPrefix: string :=
    "Utilizza il seguente testo " + "del PDF come contesto per rispondere alle domande:\n\n"
  const DocumentSuffix: string := "\n\n"
  const TonePrefix: string := "ISTRUZIONE PRIORITARIA: "

  /** The system message that hands the document text to the model. */
  function DocumentMessage(pdf: string): Message
  {
    Message(System, DocumentPrefix + pdf + DocumentSuffix)
  }

  /** The system message that carries the tone directive. */
  function ToneMessage(tone: string): Message
  {
    Message(System, TonePrefix + tone)
  }

  /** A system message of the document shape: the document prefix, some
      text, the closing blank line. */
  predicate IsDocumentMessage(m: Message)
  {
    && m.role == System
    && |m.content| >= |DocumentPrefix| + |DocumentSuffix|
    && m.content[..|DocumentPrefix|] == DocumentPrefix
    && m.content[|m.content| - |DocumentSuffix|..] == DocumentSuffix
  }

  /** The document text inside a message of the document shape. */
  function DocumentOf(m: Message): string
    requires IsDocumentMessage(m)
  {
    m.content[|DocumentPrefix|..|m.content| - |DocumentSuffix|]
  }

  /** A system message of the tone shape: the tone prefix, then the directive. */
  predicate IsToneMessage(m: Message)
  {
    && m.role == System
    && |m.content| >= |TonePrefix|
    && m.content[..|TonePrefix|] == TonePrefix
  }

  /** The directive inside a message of the tone shape. */
  function ToneOf(m: Message): string
    requires IsToneMessage(m)
  {
    m.content[|TonePrefix|..]
  }

  /** The document message gives its text back and is never mistaken for a
      tone message (the two prefixes differ in their first letter). */
  lemma DocumentMessageRoundTrip(pdf: string)
    ensures IsDocumentMessage(DocumentMessage(pdf))
    ensures DocumentOf(DocumentMessage(pdf)) == pdf
    ensures !IsToneMessage(DocumentMessage(pdf))
  {
    var c := DocumentMessage(pdf).content;
    assert c[..|DocumentPrefix|] == DocumentPrefix;
    assert c[|c| - |DocumentSuffix|..] == DocumentSuffix;
    assert c[|DocumentPrefix|..|c| - |DocumentSuffix|] == pdf;
    assert c[0] == DocumentPrefix[0] == 'U';
    assert TonePrefix[0] == 'I';
    assert |c| >= |TonePrefix| ==> c[..|TonePrefix|][0] == 'U';
  }

  /** The tone message gives its directive back and is never mistaken for a
      document message. */
  lemma ToneMessageRoundTrip(tone: string)
    ensures IsToneMessage(ToneMessage(tone))
    ensures ToneOf(ToneMessage(tone)) == tone
    ensures !IsDocumentMessage(ToneMessage(tone))
  {
    var c := ToneMessage(tone).content;
    assert c[..|TonePrefix|] == TonePrefix;
    assert c[|TonePrefix|..] == tone;
    assert c[0] == TonePrefix[0] == 'I';
    assert DocumentPrefix[0] == 'U';
    assert |c| >= |DocumentPrefix| ==> c[..|DocumentPrefix|][0] == 'I';
  }

  /** The system messages placed ahead of the conversation: one for a
      non-empty document text, then one for a non-empty tone directive. */
  function SystemMessages(pdf: string, tone: string): (s: seq<Message>)
    ensures |s| == (if pdf != "" then 1 else 0) + (if tone != "" then 1 else 0)
    ensures forall k :: 0 <= k < |s| ==> s[k].role == System
    ensures pdf != "" ==> s[0] == DocumentMessage(pdf)
    ensures tone != "" ==> s[|s| - 1] == ToneMessage(tone)
  {
    (if pdf != "" then [DocumentMessage(pdf)] else [])
      + (if tone != "" then [ToneMessage(tone)] else [])
  }

  /** The full request for a document text, a tone directive and a
      conversation. */
  function Request(pdf: string, tone: string, history: seq<Message>): seq<Message>
  {
    SystemMessages(pdf, tone) + history
  }

  /** With both a document text and a tone directive, the request is the
      document message, the tone message, then the conversation. */
  lemma RequestWithContext(pdf: string, tone: string, history: seq<Message>)
    requires pdf != "" && tone != ""
    ensures Request(pdf, tone, history) == [DocumentMessage(pdf), ToneMessage(tone)] + history
  {
  }

  /** A request taken apart: the document text and the tone directive it
      carries ("" when it carries none), and the messages that follow. */
  datatype Parts = Parts(pdf: string, tone: string, history: seq<Message>)

  /** Reads a request back: a leading document message, then a tone message,
      each optional, then the conversation. */
  function ParseRequest(request: seq<Message>): Parts
  {
    var hasDoc := |request| > 0 && IsDocumentMessage(request[0]);
    var pdf := if hasDoc then DocumentOf(request[0]) else "";
    var rest := if hasDoc then request[1..] else request;
    var hasTone := |rest| > 0 && IsToneMessage(rest[0]);
    var tone := if hasTone then ToneOf(rest[0]) else "";
    Parts(pdf, tone, if hasTone then rest[1..] else rest)
  }

  /** A request carries exactly the document text, the tone directive and
      the conversation it was built from, as long as the conversation holds
      no system message of its own. */
  lemma {:induction false} RequestRoundTrip(pdf: string, tone: string, history: seq<Message>)
    requires NoSystem(history)
    ensures ParseRequest(Request(pdf, tone, history)) == Parts(pdf, tone, history)
  {
    var request := Request(pdf, tone, history);
    DocumentMessageRoundTrip(pdf);
    ToneMessageRoundTrip(tone);
    var rest := if pdf != "" then request[1..] else request;
    assert rest == SystemMessages("", tone) + history;
    if |history| > 0 {
      assert history[0].role != System;
    }
    if tone != "" {
      assert rest[1..] == history;
    }
  }

  /** Two conversations with no system messages that give the same request,
      came with the same document text and tone directive and are the same
      conversation. */
  lemma RequestInjective(pdf1: string, tone1: string, h1: seq<Message>,
                         pdf2: string, tone2: string, h2: seq<Message>)
    requires NoSystem(h1) && NoSystem(h2)
    requires Request(pdf1, tone1, h1) == Request(pdf2, tone2, h2)
    ensures pdf1 == pdf2 && tone1 == tone2 && h1 == h2
  {
    RequestRoundTrip(pdf1, tone1, h1);
    RequestRoundTrip(pdf2, tone2, h2);
  }

  /** How `messages_for_api` is built: start from an empty list, append the document message
      when there is document text, append the tone message when there is a
      directive, then extend with a copy of every message of the
      conversation. */
  method AssembleRequest(pdf: string, tone: string, history: seq<Message>)
    returns (request: seq<Message>)
    ensures request == Request(pdf, tone, history)
    ensures |request| == |SystemMessages(pdf, tone)| + |history|
    ensures request[|request| - |history|..] == history
  {
    request := [];
    if pdf != "" {
      request := request + [DocumentMessage(pdf)];
    }
    if tone != "" {
      request := request + [ToneMessage(tone)];
    }
    request := request + history;
  }
}
