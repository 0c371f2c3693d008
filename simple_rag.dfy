/** The mock RAG system of app_simple.py: a document store and a chat
    history, both extended in place, and a canned reply chosen from the
    question and the number of stored documents. */
module SimpleRag {
  import opened Text

  /** One `{"role": ..., "content": ...}` entry of the chat history. */
  datatype HistoryEntry = HistoryEntry(role: string, content: string)

  /** One `{"text": ..., "filename": ...}` record of the document store. */
  datatype Document = Document(text: string, filename: string)

  /** How much of a document's text is kept. */
  const KeptChars := 500

  /** `text[:500]`. */
  function Truncated(text: string): (r: string)
    ensures |r| <= KeptChars
    ensures |text| <= KeptChars ==> r == text
    ensures |text| > KeptChars ==> |r| == KeptChars
    ensures r <= text
  {
    if |text| <= KeptChars then text else text[..KeptChars]
  }

  /** The question asks about the documents: "pdf" or "文档" occurs in it once
      lower-cased. */
  predicate Mentions(question: string)
  {
    Contains(AsciiLower(question), "pdf") || Contains(AsciiLower(question), "文档")
  }

  const CountPrefix := "基于上传的文档，我可以回答关于PDF内容的问题。当前知识库中有"
  const CountSuffix := "个文档。"
  const UploadFirst := "请先上传PDF文档，我才能基于文档内容回答。"
  const EchoPrefix := "我理解了您的问题：'"
  const EchoSuffix := "'。这是一个模拟的RAG系统回复。"

  /** The reply `chat` gives to `question` with `documentCount` stored documents. */
  function Reply(question: string, documentCount: nat): string
  {
    if Mentions(question) then
      if documentCount > 0 then CountPrefix + NatToString(documentCount) + CountSuffix
      else UploadFirst
    else EchoPrefix + question + EchoSuffix
  }

  /** Asking about the documents while some are stored: the reply states the
      count, and the count can be read back from it. */
  lemma ReplyStatesCount(question: string, documentCount: nat)
    requires Mentions(question) && documentCount > 0
    ensures var r := Reply(question, documentCount);
      && |r| > |CountPrefix| + |CountSuffix|
      && r[..|CountPrefix|] == CountPrefix && r[|r| - |CountSuffix|..] == CountSuffix
      && (forall i :: |CountPrefix| <= i < |r| - |CountSuffix| ==> IsDigit(r[i]))
      && ParseDecimal(r[|CountPrefix|..|r| - |CountSuffix|]) == documentCount
  {
    var digits := NatToString(documentCount);
    var r := Reply(question, documentCount);
    assert r == CountPrefix + (digits + CountSuffix);
    assert r[|CountPrefix|..|r| - |CountSuffix|] == digits;
    DecimalRoundTrip(documentCount);
  }

  /** Asking about the documents with none stored: the upload-first reply,
      whatever the question. */
  lemma ReplyAsksForUpload(question: string)
    requires Mentions(question)
    ensures Reply(question, 0) == UploadFirst
    ensures forall q :: Mentions(q) ==> Reply(q, 0) == Reply(question, 0)
  {
  }

  /** Any other question is echoed back inside the reply, whatever the
      number of documents, and can be read back from it. */
  lemma ReplyEchoes(question: string, documentCount: nat)
    requires !Mentions(question)
    ensures var r := Reply(question, documentCount);
      && r == Reply(question, 0)
      && |r| == |EchoPrefix| + |question| + |EchoSuffix|
      && r[..|EchoPrefix|] == EchoPrefix
      && r[|EchoPrefix|..|r| - |EchoSuffix|] == question
      && Contains(r, question)
  {
    var r := Reply(question, documentCount);
    assert r == EchoPrefix + (question + EchoSuffix);
    ContainsItself(EchoPrefix, question, EchoSuffix);
  }

  /** The test ignores case: a question holding "PDF" in any mix of upper and
      lower case asks about the documents. */
  lemma MentionIgnoresCase(question: string, i: int)
    requires 0 <= i <= |question| - 3
    requires question[i] in {'p', 'P'} && question[i + 1] in {'d', 'D'} && question[i + 2] in {'f', 'F'}
    ensures Mentions(question)
  {
    var lower := AsciiLower(question);
    assert lower[i..i + 3] == "pdf";
    assert OccursAt(lower, "pdf", i);
  }

  /** A history of completed exchanges: user entries and assistant entries
      alternate, starting with a user entry, and come in pairs. */
  ghost predicate Alternates(history: seq<HistoryEntry>)
  {
    && |history| % 2 == 0
    && forall i :: 0 <= i < |history| ==> history[i].role == if i % 2 == 0 then "user" else "assistant"
  }

  /** Appending one exchange keeps a history alternating, and only an
      alternating history stays so. */
  lemma AlternatesAppend(history: seq<HistoryEntry>, question: string, response: string)
    ensures Alternates(history + [HistoryEntry("user", question), HistoryEntry("assistant", response)])
        <==> Alternates(history)
  {
    var h := history + [HistoryEntry("user", question), HistoryEntry("assistant", response)];
    if Alternates(h) {
      assert forall i :: 0 <= i < |history| ==> history[i] == h[i];
    }
  }

  /** `SimpleRAG`: `history` and `documents` are lists the methods extend. */
  class SimpleRAG {
    var history: seq<HistoryEntry>
    var documents: seq<Document>

    ghost predicate Valid()
      reads this
    {
      Alternates(history)
    }

    /** `__init__`: both lists start empty. */
    constructor()
      ensures history == [] && documents == []
      ensures Valid()
    {
      history := [];
      documents := [];
    }

    /** `add_document`: one record with the first 500 characters of the text. */
    method AddDocument(text: string, filename: string)
      modifies this
      ensures documents == old(documents) + [Document(Truncated(text), filename)]
      ensures history == old(history)
    {
      documents := documents + [Document(Truncated(text), filename)];
    }

    /** `chat`: the question and then the reply are appended to the history,
        and the reply is returned. */
    method Chat(question: string) returns (response: string)
      modifies this
      ensures response == Reply(question, |documents|)
      ensures history == old(history) + [HistoryEntry("user", question), HistoryEntry("assistant", response)]
      ensures documents == old(documents)
      ensures Valid() <==> old(Valid())
    {
      history := history + [HistoryEntry("user", question)];
      if Contains(AsciiLower(question), "pdf") || Contains(AsciiLower(question), "文档") {
        if |documents| > 0 {
          response := CountPrefix + NatToString(|documents|) + CountSuffix;
        } else {
          response := UploadFirst;
        }
      } else {
        response := EchoPrefix + question + EchoSuffix;
      }
      history := history + [HistoryEntry("assistant", response)];
      assert history == old(history) + [HistoryEntry("user", question), HistoryEntry("assistant", response)];
      AlternatesAppend(old(history), question, response);
    }
  }
}
