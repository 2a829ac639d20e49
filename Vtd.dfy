/** The view of the parsed document that the edit engine works against, and
    the modifier that collects its edit requests. Parsing, XPath evaluation and
    the final splice belong to the XML library; here they are the inputs the
    engine reads (a token table, the matches of each XPath, the attribute
    lookup) and the list of requests it hands back. */
module Vtd {
  import opened Wrappers

  /** The token kinds the parser reports. */
  datatype TokenType =
    | StartingTag | EndingTag | AttrName | AttrNs | AttrVal | CharacterData
    | Comment | PiName | PiVal | DecAttrName | DecAttrVal | CdataVal | DtdVal | Document

  /** One entry of the token table: its kind and the byte range it covers. */
  datatype Token = Token(kind: TokenType, offset: nat, length: nat)

  /** A parsed document: its token table, the token indices an XPath matches
      (in the evaluator's order, possibly none), and the value token of a named
      attribute of the element at a given token, when it has one. */
  datatype View = View(
    tokens: seq<Token>,
    select: string -> seq<nat>,
    attrVal: (nat, string) -> Option<nat>)

  /** Every match the evaluator reports is an entry of the token table. */
  ghost predicate WellFormed(view: View) {
    forall xpath: string, j :: 0 <= j < |view.select(xpath)| ==> view.select(xpath)[j] < |view.tokens|
  }

  type Bytes = seq<bv8>

  /** An edit request as the modifier records it. Offsets and token indices
      refer to the original document. */
  datatype EditRequest =
    | UpdateToken(index: nat, value: string)
    | InsertAfterHead(element: nat, fragment: string)
    | InsertAfterElement(element: nat, fragment: string)
    | InsertBeforeElement(element: nat, fragment: string)
    | InsertBytesAt(offset: int, bytes: Bytes)

  /** The modifier: an append-only list of edit requests, valid until the
      document is written out. */
  class Modifier {
    var requests: seq<EditRequest>

    constructor ()
      ensures requests == []
    {
      requests := [];
    }

    /** Replace the text of the token at `index`. */
    method UpdateToken(index: nat, value: string)
      modifies this
      ensures requests == old(requests) + [EditRequest.UpdateToken(index, value)]
    {
      requests := requests + [EditRequest.UpdateToken(index, value)];
    }

    /** Insert a fragment as the first content of the element at `element`. */
    method InsertAfterHead(element: nat, fragment: string)
      modifies this
      ensures requests == old(requests) + [EditRequest.InsertAfterHead(element, fragment)]
    {
      requests := requests + [EditRequest.InsertAfterHead(element, fragment)];
    }

    /** Insert a fragment right after the end of the element at `element`. */
    method InsertAfterElement(element: nat, fragment: string)
      modifies this
      ensures requests == old(requests) + [EditRequest.InsertAfterElement(element, fragment)]
    {
      requests := requests + [EditRequest.InsertAfterElement(element, fragment)];
    }

    /** Insert a fragment right before the start of the element at `element`. */
    method InsertBeforeElement(element: nat, fragment: string)
      modifies this
      ensures requests == old(requests) + [EditRequest.InsertBeforeElement(element, fragment)]
    {
      requests := requests + [EditRequest.InsertBeforeElement(element, fragment)];
    }

    /** Insert raw bytes at a byte offset of the original document. */
    method InsertBytesAt(offset: int, bytes: Bytes)
      modifies this
      ensures requests == old(requests) + [EditRequest.InsertBytesAt(offset, bytes)]
    {
      requests := requests + [EditRequest.InsertBytesAt(offset, bytes)];
    }
  }
}
