/** The document domain types: a versioned `Document` whose text is replaced
    in place by `Update`, and the immutable `Chunk` bound to its document.
    Identifiers are 128-bit UUIDs; generating them is random, so they are
    supplied by the caller. */
module DocumentDomain {

  /** A 128-bit UUID. */
  newtype Uuid = x: int | 0 <= x < 0x1_0000_0000_0000_0000_0000_0000_0000_0000

  /** A fragment of a document's text, owned by the document `docId`
      (`Chunk::new(doc_id, text)` with the id it draws supplied as `id`). */
  datatype Chunk = Chunk(id: Uuid, docId: Uuid, text: string)

  /** The value of a document's fields at one moment. */
  datatype DocumentState = DocumentState(id: Uuid, version: nat, text: string)

  /** The state `Document::new(text)` starts in: version 1. */
  function Initial(id: Uuid, text: string): DocumentState {
    DocumentState(id, 1, text)
  }

  /** The state `update(newText)` leaves behind. */
  function Updated(s: DocumentState, newText: string): DocumentState {
    s.(version := s.version + 1, text := newText)
  }

  /** The state after applying the updates `texts` in order. */
  function UpdatedAll(s: DocumentState, texts: seq<string>): DocumentState
    decreases |texts|
  {
    if texts == [] then s else UpdatedAll(Updated(s, texts[0]), texts[1..])
  }

  /** A run of updates keeps the id, raises the version by exactly one per
      update and leaves the text of the last update. */
  lemma {:induction false} UpdatedAllEffect(s: DocumentState, texts: seq<string>)
    ensures UpdatedAll(s, texts).id == s.id
    ensures UpdatedAll(s, texts).version == s.version + |texts|
    ensures UpdatedAll(s, texts).text == if texts == [] then s.text else texts[|texts| - 1]
    decreases |texts|
  {
    if texts != [] {
      UpdatedAllEffect(Updated(s, texts[0]), texts[1..]);
    }
  }

  /** `n` updates of a fresh document leave it at version `1 + n`, holding the
      last text given. */
  lemma VersionAfterUpdates(id: Uuid, text: string, texts: seq<string>)
    ensures UpdatedAll(Initial(id, text), texts).version == 1 + |texts|
    ensures UpdatedAll(Initial(id, text), texts).id == id
    ensures texts != [] ==> UpdatedAll(Initial(id, text), texts).text == texts[|texts| - 1]
  {
    UpdatedAllEffect(Initial(id, text), texts);
  }

  /** A stored document: its id, its version (starting at 1) and its text. */
  class Document {
    var id: Uuid
    var version: nat
    var text: string

    /** The current value of the fields. */
    function State(): DocumentState
      reads this
    {
      DocumentState(id, version, text)
    }

    /** `Document::new`: a document at version 1 holding `text`. */
    constructor (id: Uuid, text: string)
      ensures this.id == id && version == 1 && this.text == text
      ensures State() == Initial(id, text)
    {
      this.id := id;
      this.version := 1;
      this.text := text;
    }

    /** `Document::update`: the version goes up by exactly one, the text is
        replaced by `newText`, and the id is untouched. */
    method Update(newText: string)
      modifies this
      ensures version == old(version) + 1
      ensures text == newText
      ensures id == old(id)
      ensures State() == Updated(old(State()), newText)
    {
      version := version + 1;
      text := newText;
    }
  }

  /** The unit test of `Document::update`: "hello" updated to "non hello"
      holds "non hello" at version 2. */
  method DocumentUpdatingScenario(id: Uuid) returns (version: nat, text: string)
    ensures version == 2 && text == "non hello"
  {
    var document := new Document(id, "hello");
    document.Update("non hello");
    version, text := document.version, document.text;
  }
}
