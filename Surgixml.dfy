/** The edit engine of `surgixml`: it reads the namespace, attribute-edit and
    insertion specs from the command line, resolves each against the parsed
    document, and records the resulting edit requests in a fixed category
    order, for the XML library to splice into the output. */
module Surgixml {
  import opened Wrappers
  import opened JavaLang
  import opened Vtd
  import AttributeEdits
  import ElementInserts

  /** The options `run` reads. An option that was not given is the empty list.
      The separator is accepted but never consulted: every insertion spec is
      cut at its first `:`. The XML file path is left out with the file I/O. */
  datatype Options = Options(
    edits: seq<string>,
    adds: seq<string>,
    insertAfterHead: seq<string>,
    insertAfterElement: seq<string>,
    insertBeforeElement: seq<string>,
    insertAfterLocation: seq<string>,
    namespaces: seq<string>,
    separator: string)

  /** A namespace prefix bound for the XPath evaluator. */
  datatype Binding = Binding(prefix: string, uri: string)

  /** How a run ends. Only `Written` writes the file; the other two leave it
      untouched. */
  datatype Outcome =
    | NotParsed
    | Aborted(error: Exception)
    | Written(bindings: seq<Binding>, requests: seq<EditRequest>)

  /** Where an insertion goes relative to the first match of its XPath. */
  datatype Anchor = AfterHead | AfterElement | BeforeElement | AfterLocation | AddAttribute

  /** The six kinds of spec, in the order `run` processes them. */
  datatype Category = EditAttribute | Insert(anchor: Anchor)

  type Encoder = string -> Bytes

  // ---------------------------------------------------------------------------
  // Namespace specs

  /** A namespace spec `prefix:uri`, cut at its first `:`. Without a `:` the
      first substring call is given an end index of -1 and throws. */
  function SplitNamespace(ns: string): (r: Result<Binding, Exception>)
    ensures r.Err? <==> ':' !in ns
    ensures r.Err? ==> r.error == StringIndexOutOfBounds(0, -1, |ns|)
    ensures r.Ok? ==> r.value.prefix + ":" + r.value.uri == ns && ':' !in r.value.prefix
  {
    var idx := IndexOf(ns, ':');
    if idx == -1 then Err(StringIndexOutOfBounds(0, -1, |ns|))
    else
      assert ns == ns[..idx] + ":" + ns[idx + 1..];
      Ok(Binding(ns[..idx], ns[idx + 1..]))
  }

  /** The bindings declared by a list of namespace specs, or the exception of
      the first spec without a `:`. */
  function Namespaces(specs: seq<string>): (r: Result<seq<Binding>, Exception>)
    ensures r.Ok? <==> forall k :: 0 <= k < |specs| ==> ':' in specs[k]
    ensures r.Ok? ==> |r.value| == |specs|
    ensures r.Ok? ==> forall k :: 0 <= k < |specs| ==>
      r.value[k].prefix + ":" + r.value[k].uri == specs[k] && ':' !in r.value[k].prefix
  {
    if |specs| == 0 then Ok([])
    else
      match Namespaces(specs[..|specs| - 1])
      case Err(e) => Err(e)
      case Ok(done) =>
        match SplitNamespace(specs[|specs| - 1])
        case Err(e) => Err(e)
        case Ok(b) => Ok(done + [b])
  }

  /** Once a prefix of the namespace specs fails, the whole list fails with
      the same exception. */
  lemma {:induction false} NamespacesPrefixError(specs: seq<string>, i: nat)
    requires i < |specs| && Namespaces(specs[..i + 1]).Err?
    ensures Namespaces(specs) == Namespaces(specs[..i + 1])
    decreases |specs|
  {
    if i + 1 < |specs| {
      var init := specs[..|specs| - 1];
      assert init[..i + 1] == specs[..i + 1];
      NamespacesPrefixError(init, i);
    } else {
      assert specs[..i + 1] == specs;
    }
  }

  // ---------------------------------------------------------------------------
  // Attribute edits

  /** The request for one match: an update of the named attribute's value
      token, when the matched element has that attribute. */
  function UpdateAt(view: View, m: nat, edit: AttributeEdits.AttributeEdit): seq<EditRequest> {
    match view.attrVal(m, edit.attribute)
    case None => []
    case Some(index) => [UpdateToken(index, edit.newValue)]
  }

  /** The requests of an attribute edit: one per match that has the attribute,
      in match order. */
  function AttributeUpdates(view: View, matches: seq<nat>, edit: AttributeEdits.AttributeEdit): (r: seq<EditRequest>)
    ensures |r| <= |matches|
    ensures forall k :: 0 <= k < |r| ==> r[k].UpdateToken? && r[k].value == edit.newValue
  {
    if |matches| == 0 then []
    else AttributeUpdates(view, matches[..|matches| - 1], edit) + UpdateAt(view, matches[|matches| - 1], edit)
  }

  /** A single match gets exactly its own update, or none. */
  lemma AttributeUpdatesSingle(view: View, m: nat, edit: AttributeEdits.AttributeEdit)
    ensures AttributeUpdates(view, [m], edit) == UpdateAt(view, m, edit)
  {
    assert [m][..0] == [];
  }

  /** The matches are handled one after another: the updates of two runs of
      matches are those of the first run followed by those of the second. */
  lemma {:induction false} AttributeUpdatesAppend(view: View, m1: seq<nat>, m2: seq<nat>, edit: AttributeEdits.AttributeEdit)
    ensures AttributeUpdates(view, m1 + m2, edit) == AttributeUpdates(view, m1, edit) + AttributeUpdates(view, m2, edit)
    decreases |m2|
  {
    if |m2| == 0 {
      assert m1 + m2 == m1;
    } else {
      var init, last := m2[..|m2| - 1], m2[|m2| - 1];
      assert (m1 + m2)[..|m1 + m2| - 1] == m1 + init;
      assert (m1 + m2)[|m1 + m2| - 1] == last;
      AttributeUpdatesAppend(view, m1, init, edit);
      AppendAssoc(AttributeUpdates(view, m1, edit), AttributeUpdates(view, init, edit), UpdateAt(view, last, edit));
    }
  }

  /** Some match has the attribute, with `index` as its value token. */
  predicate ValueTokenOfSomeMatch(view: View, matches: seq<nat>, attribute: string, index: nat) {
    exists j :: 0 <= j < |matches| && view.attrVal(matches[j], attribute) == Some(index)
  }

  /** Every recorded update targets the value token of the attribute on some
      match. */
  lemma {:induction false} AttributeUpdatesSound(view: View, matches: seq<nat>, edit: AttributeEdits.AttributeEdit)
    ensures forall k :: 0 <= k < |AttributeUpdates(view, matches, edit)| ==>
      ValueTokenOfSomeMatch(view, matches, edit.attribute, AttributeUpdates(view, matches, edit)[k].index)
  {
    if |matches| > 0 {
      var init := matches[..|matches| - 1];
      AttributeUpdatesSound(view, init, edit);
      var r := AttributeUpdates(view, matches, edit);
      var r0 := AttributeUpdates(view, init, edit);
      forall k | 0 <= k < |r|
        ensures ValueTokenOfSomeMatch(view, matches, edit.attribute, r[k].index)
      {
        assert r == r0 + UpdateAt(view, matches[|matches| - 1], edit);
        if k < |r0| {
          assert ValueTokenOfSomeMatch(view, init, edit.attribute, r0[k].index);
          var j :| 0 <= j < |init| && view.attrVal(init[j], edit.attribute) == Some(r0[k].index);
          assert matches[j] == init[j];
        } else {
          var j := |matches| - 1;
          assert view.attrVal(matches[j], edit.attribute) == Some(r[k].index);
        }
      }
    }
  }

  /** Every match that has the attribute gets its update: no match is skipped. */
  lemma {:induction false} AttributeUpdatesComplete(view: View, matches: seq<nat>, edit: AttributeEdits.AttributeEdit)
    ensures forall j :: 0 <= j < |matches| && view.attrVal(matches[j], edit.attribute).Some? ==>
      UpdateToken(view.attrVal(matches[j], edit.attribute).value, edit.newValue) in AttributeUpdates(view, matches, edit)
  {
    if |matches| > 0 {
      var init := matches[..|matches| - 1];
      AttributeUpdatesComplete(view, init, edit);
      forall j | 0 <= j < |matches| && view.attrVal(matches[j], edit.attribute).Some?
        ensures UpdateToken(view.attrVal(matches[j], edit.attribute).value, edit.newValue)
          in AttributeUpdates(view, matches, edit)
      {
        if j < |init| {
          assert init[j] == matches[j];
        }
      }
    }
  }

  /** Nothing is recorded exactly when no match has the attribute. */
  lemma {:induction false} AttributeUpdatesEmpty(view: View, matches: seq<nat>, edit: AttributeEdits.AttributeEdit)
    ensures AttributeUpdates(view, matches, edit) == [] <==>
      forall j :: 0 <= j < |matches| ==> view.attrVal(matches[j], edit.attribute).None?
  {
    var r := AttributeUpdates(view, matches, edit);
    AttributeUpdatesSound(view, matches, edit);
    AttributeUpdatesComplete(view, matches, edit);
    if r != [] {
      assert ValueTokenOfSomeMatch(view, matches, edit.attribute, r[0].index);
      var j :| 0 <= j < |matches| && view.attrVal(matches[j], edit.attribute) == Some(r[0].index);
    }
  }

  /** When every match has the attribute, there is one update per match, in
      match order, each aimed at that match's attribute value. */
  lemma {:induction false} AttributeUpdatesEveryMatch(view: View, matches: seq<nat>, edit: AttributeEdits.AttributeEdit)
    requires forall j :: 0 <= j < |matches| ==> view.attrVal(matches[j], edit.attribute).Some?
    ensures |AttributeUpdates(view, matches, edit)| == |matches|
    ensures forall k :: 0 <= k < |matches| ==>
      AttributeUpdates(view, matches, edit)[k] == UpdateToken(view.attrVal(matches[k], edit.attribute).value, edit.newValue)
  {
    if |matches| > 0 {
      var init := matches[..|matches| - 1];
      AttributeUpdatesEveryMatch(view, init, edit);
      forall k | 0 <= k < |matches|
        ensures AttributeUpdates(view, matches, edit)[k]
          == UpdateToken(view.attrVal(matches[k], edit.attribute).value, edit.newValue)
      {
        if k < |init| {
          assert init[k] == matches[k];
        }
      }
    }
  }

  // ---------------------------------------------------------------------------
  // Insertions

  /** The after-location correction: the fixed length of the delimiter that
      closes each kind of markup, `-->` for a comment, `?>` for a processing
      instruction, `>` for a start tag, and one byte for every other kind. It
      reaches the end of the markup only when nothing (attributes, a
      processing-instruction value) follows the token. */
  function Correction(kind: TokenType): (c: nat)
    ensures kind == Comment ==> c == |"-->"|
    ensures kind == PiName ==> c == |"?>"|
    ensures kind == StartingTag ==> c == |">"|
    ensures kind != Comment && kind != PiName && kind != StartingTag ==> c == 1
  {
    match kind
    case Comment => 3
    case StartingTag => 1
    case PiName => 2
    case _ => 1
  }

  predicate IsAttribute(kind: TokenType) {
    kind == AttrName || kind == AttrVal
  }

  /** The end of the run of attribute-name and attribute-value tokens that
      starts at `start`: every token before it is one, and the token at it,
      if any, is not. */
  function AttrRunEnd(tokens: seq<Token>, start: nat): (e: nat)
    ensures start <= e && (e <= |tokens| || e == start)
    ensures forall k :: start <= k < e ==> IsAttribute(tokens[k].kind)
    ensures e < |tokens| ==> !IsAttribute(tokens[e].kind)
    decreases |tokens| - start
  {
    if start >= |tokens| || !IsAttribute(tokens[start].kind) then start
    else AttrRunEnd(tokens, start + 1)
  }

  /** Offset plus length of the last token of that run, or -1 if it is empty. */
  function LastAttrOffset(tokens: seq<Token>, start: nat): int {
    var e := AttrRunEnd(tokens, start);
    if e == start then -1 else tokens[e - 1].offset + tokens[e - 1].length
  }

  /** The add-attribute request for a matched token: an insertion one byte
      past the end of its last attribute token, when it is a start tag and
      that end is positive. */
  function AddAttributeRequests(tokens: seq<Token>, m: nat, bytes: Bytes): seq<EditRequest>
    requires m < |tokens|
  {
    if tokens[m].kind == StartingTag then
      var lastAttrOffset := LastAttrOffset(tokens, m + 1);
      if lastAttrOffset > 0 then [InsertBytesAt(lastAttrOffset + 1, bytes)] else []
    else []
  }

  /** The requests of an insertion spec: at most one, aimed at the first match
      only, and none when the XPath matches nothing. */
  function InsertRequests(anchor: Anchor, tokens: seq<Token>, matches: seq<nat>, value: string, getBytes: Encoder)
    : (r: seq<EditRequest>)
    requires forall j :: 0 <= j < |matches| ==> matches[j] < |tokens|
    ensures |r| <= 1
    ensures matches == [] ==> r == []
    ensures anchor != AddAttribute && matches != [] ==> |r| == 1
    ensures anchor == AfterHead && matches != [] ==> r == [InsertAfterHead(matches[0], value)]
    ensures anchor == AfterElement && matches != [] ==> r == [InsertAfterElement(matches[0], value)]
    ensures anchor == BeforeElement && matches != [] ==> r == [InsertBeforeElement(matches[0], value)]
    ensures anchor == AfterLocation && r != [] ==>
      r[0].InsertBytesAt? && r[0].bytes == getBytes(value) &&
      tokens[matches[0]].offset + tokens[matches[0]].length < r[0].offset <=
        tokens[matches[0]].offset + tokens[matches[0]].length + 3
    ensures anchor == AddAttribute ==>
      (r != [] <==> matches != [] && tokens[matches[0]].kind == StartingTag && LastAttrOffset(tokens, matches[0] + 1) > 0)
    ensures anchor == AddAttribute && r != [] ==>
      r == [InsertBytesAt(LastAttrOffset(tokens, matches[0] + 1) + 1, getBytes(value))]
  {
    if |matches| == 0 then []
    else
      var m := matches[0];
      match anchor
      case AfterHead => [InsertAfterHead(m, value)]
      case AfterElement => [InsertAfterElement(m, value)]
      case BeforeElement => [InsertBeforeElement(m, value)]
      case AfterLocation =>
        var offset := tokens[m].offset + tokens[m].length;
        [InsertBytesAt(offset + Correction(tokens[m].kind), getBytes(value))]
      case AddAttribute => AddAttributeRequests(tokens, m, getBytes(value))
  }

  /** An insertion depends on its first match alone: matches after the first
      change nothing. */
  lemma InsertUsesFirstMatchOnly(anchor: Anchor, tokens: seq<Token>, m1: seq<nat>, m2: seq<nat>, value: string, getBytes: Encoder)
    requires forall j :: 0 <= j < |m1| ==> m1[j] < |tokens|
    requires forall j :: 0 <= j < |m2| ==> m2[j] < |tokens|
    requires m1 != [] && m2 != [] && m1[0] == m2[0]
    ensures InsertRequests(anchor, tokens, m1, value, getBytes) == InsertRequests(anchor, tokens, m2, value, getBytes)
  {
  }

  /** An attribute addition finds no place when the token after the start tag
      is not an attribute name or value: an element without attributes, or one
      whose first attribute is a namespace declaration, gets nothing. */
  lemma AddAttributeNeedsLeadingAttribute(tokens: seq<Token>, matches: seq<nat>, value: string, getBytes: Encoder)
    requires forall j :: 0 <= j < |matches| ==> matches[j] < |tokens|
    requires matches != [] && (matches[0] + 1 == |tokens| || !IsAttribute(tokens[matches[0] + 1].kind))
    ensures InsertRequests(AddAttribute, tokens, matches, value, getBytes) == []
  {
    assert AttrRunEnd(tokens, matches[0] + 1) == matches[0] + 1;
  }

  /** `<!-- c -->`: the comment's text ` c ` is the token at offset 4, length
      3; the insertion lands at offset 10, just past the closing `-->`. */
  lemma AfterLocationCommentExample(value: string, getBytes: Encoder)
    ensures var text := "<!-- c -->";
      InsertRequests(AfterLocation, [Token(Comment, 4, 3)], [0], value, getBytes)
        == [InsertBytesAt(|text|, getBytes(value))] &&
      text[4..7] == " c " && text[7..] == "-->"
  {
  }

  /** `<e a="1" b="2">`: the scan runs over both attributes; the last value
      token ends at 13, on its closing quote, and the addition lands at 14,
      on the `>`. */
  lemma AddAttributeExample(value: string, getBytes: Encoder)
    ensures var text := "<e a=\"1\" b=\"2\">";
      var tokens := [Token(StartingTag, 1, 1), Token(AttrName, 3, 1), Token(AttrVal, 6, 1),
                     Token(AttrName, 9, 1), Token(AttrVal, 12, 1)];
      InsertRequests(AddAttribute, tokens, [0], value, getBytes) == [InsertBytesAt(14, getBytes(value))] &&
      text[13] == '"' && text[14] == '>'
  {
    var tokens := [Token(StartingTag, 1, 1), Token(AttrName, 3, 1), Token(AttrVal, 6, 1),
                   Token(AttrName, 9, 1), Token(AttrVal, 12, 1)];
    assert AttrRunEnd(tokens, 5) == 5;
    assert AttrRunEnd(tokens, 1) == 5;
  }

  // ---------------------------------------------------------------------------
  // Stages and the whole run

  /** The requests of one spec of a category, or the parser's exception. */
  function Resolve(cat: Category, spec: string, view: View, getBytes: Encoder): Result<seq<EditRequest>, Exception>
    requires WellFormed(view)
  {
    match cat
    case EditAttribute =>
      (match AttributeEdits.Parse(spec)
       case Err(e) => Err(e)
       case Ok(edit) => Ok(AttributeUpdates(view, view.select(edit.xpath), edit)))
    case Insert(anchor) =>
      (match ElementInserts.Parse(spec)
       case Err(e) => Err(e)
       case Ok(ins) => Ok(InsertRequests(anchor, view.tokens, view.select(ins.xpath), ins.value, getBytes)))
  }

  /** Sequencing: the first exception wins; otherwise requests accumulate in order. */
  function Then(done: Result<seq<EditRequest>, Exception>, next: Result<seq<EditRequest>, Exception>)
    : Result<seq<EditRequest>, Exception>
  {
    match done
    case Err(e) => Err(e)
    case Ok(a) =>
      match next
      case Err(e) => Err(e)
      case Ok(b) => Ok(a + b)
  }

  /** The requests of a category's spec list, spec by spec in list order. */
  function Stage(cat: Category, specs: seq<string>, view: View, getBytes: Encoder): Result<seq<EditRequest>, Exception>
    requires WellFormed(view)
  {
    if |specs| == 0 then Ok([])
    else Then(Stage(cat, specs[..|specs| - 1], view, getBytes), Resolve(cat, specs[|specs| - 1], view, getBytes))
  }

  /** The spec list the options give for a category. */
  function SpecsOf(opts: Options, cat: Category): seq<string> {
    match cat
    case EditAttribute => opts.edits
    case Insert(AfterHead) => opts.insertAfterHead
    case Insert(AfterElement) => opts.insertAfterElement
    case Insert(BeforeElement) => opts.insertBeforeElement
    case Insert(AfterLocation) => opts.insertAfterLocation
    case Insert(AddAttribute) => opts.adds
  }

  /** All requests of a run: attribute edits, then insertions after the head,
      after the element, before the element, after the location, and
      attribute additions. */
  function Edits(opts: Options, view: View, getBytes: Encoder): Result<seq<EditRequest>, Exception>
    requires WellFormed(view)
  {
    Then(Then(Then(Then(Then(
      Stage(EditAttribute, opts.edits, view, getBytes),
      Stage(Insert(AfterHead), opts.insertAfterHead, view, getBytes)),
      Stage(Insert(AfterElement), opts.insertAfterElement, view, getBytes)),
      Stage(Insert(BeforeElement), opts.insertBeforeElement, view, getBytes)),
      Stage(Insert(AfterLocation), opts.insertAfterLocation, view, getBytes)),
      Stage(Insert(AddAttribute), opts.adds, view, getBytes))
  }

  /** What a run does, given the parse result of the document. */
  function Pipeline(opts: Options, doc: Option<View>, getBytes: Encoder): Outcome
    requires doc.Some? ==> WellFormed(doc.value)
  {
    match doc
    case None => NotParsed
    case Some(view) =>
      match Namespaces(opts.namespaces)
      case Err(e) => Aborted(e)
      case Ok(bindings) =>
        match Edits(opts, view, getBytes)
        case Err(e) => Aborted(e)
        case Ok(requests) => Written(bindings, requests)
  }

  // ---------------------------------------------------------------------------
  // The imperative run

  lemma AppendAssoc<T>(a: seq<T>, b: seq<T>, c: seq<T>)
    ensures a + b + c == a + (b + c)
  {
  }

  /** The add-attribute scan: walks forward from `start` while the tokens are
      attribute names or values, remembering where the last one ends. */
  method ScanAttributes(tokens: seq<Token>, start: nat) returns (lastAttrOffset: int)
    ensures lastAttrOffset == LastAttrOffset(tokens, start)
  {
    lastAttrOffset := -1;
    var i := start;
    while i < |tokens|
      invariant start <= i && (i <= |tokens| || i == start)
      invariant forall k :: start <= k < i ==> IsAttribute(tokens[k].kind)
      invariant lastAttrOffset == if i == start then -1 else tokens[i - 1].offset + tokens[i - 1].length
      decreases |tokens| - i
    {
      var nextType := tokens[i].kind;
      if nextType == AttrName || nextType == AttrVal {
        lastAttrOffset := tokens[i].offset + tokens[i].length;
      } else {
        break;
      }
      i := i + 1;
    }
    assert i == AttrRunEnd(tokens, start);
  }

  /** The attribute-edit loop: every match is visited; a match with the
      attribute gets its value token updated. */
  method RecordAttributeEdit(xm: Modifier, view: View, matches: seq<nat>, edit: AttributeEdits.AttributeEdit)
    modifies xm
    ensures xm.requests == old(xm.requests) + AttributeUpdates(view, matches, edit)
  {
    var i := 0;
    while i < |matches|
      invariant i <= |matches|
      invariant xm.requests == old(xm.requests) + AttributeUpdates(view, matches[..i], edit)
    {
      var attrIndex := view.attrVal(matches[i], edit.attribute);
      if attrIndex.Some? {
        xm.UpdateToken(attrIndex.value, edit.newValue);
      }
      assert matches[..i + 1][..i] == matches[..i];
      i := i + 1;
    }
    assert matches[..i] == matches;
  }

  /** One insertion: only the first match is used; after-location corrects
      the token's end by the markup that closes it; add-attribute scans the
      start tag's attributes and records only a positive end. */
  method RecordInsert(xm: Modifier, anchor: Anchor, tokens: seq<Token>, matches: seq<nat>, value: string, getBytes: Encoder)
    requires forall j :: 0 <= j < |matches| ==> matches[j] < |tokens|
    modifies xm
    ensures xm.requests == old(xm.requests) + InsertRequests(anchor, tokens, matches, value, getBytes)
  {
    if |matches| > 0 {
      var m := matches[0];
      match anchor {
        case AfterHead => xm.InsertAfterHead(m, value);
        case AfterElement => xm.InsertAfterElement(m, value);
        case BeforeElement => xm.InsertBeforeElement(m, value);
        case AfterLocation =>
          var tokenType := tokens[m].kind;
          var offset := tokens[m].offset + tokens[m].length;
          var extraOffset := Correction(tokenType);
          xm.InsertBytesAt(offset + extraOffset, getBytes(value));
        case AddAttribute =>
          if tokens[m].kind == StartingTag {
            var lastAttrOffset := ScanAttributes(tokens, m + 1);
            if lastAttrOffset > 0 {
              xm.InsertBytesAt(lastAttrOffset + 1, getBytes(value));
            }
          }
      }
    }
  }

  /** Parses one spec and records its requests; on a malformed spec it
      reports the exception instead. */
  method RecordSpec(xm: Modifier, cat: Category, spec: string, view: View, getBytes: Encoder)
    returns (failure: Option<Exception>)
    requires WellFormed(view)
    modifies xm
    ensures failure.None? <==> Resolve(cat, spec, view, getBytes).Ok?
    ensures failure.Some? ==> failure.value == Resolve(cat, spec, view, getBytes).error
    ensures failure.None? ==> xm.requests == old(xm.requests) + Resolve(cat, spec, view, getBytes).value
  {
    match cat {
      case EditAttribute =>
        var parsed := AttributeEdits.Parse(spec);
        if parsed.Err? {
          return Some(parsed.error);
        }
        var edit := parsed.value;
        RecordAttributeEdit(xm, view, view.select(edit.xpath), edit);
      case Insert(anchor) =>
        var parsed := ElementInserts.Parse(spec);
        if parsed.Err? {
          return Some(parsed.error);
        }
        var ins := parsed.value;
        RecordInsert(xm, anchor, view.tokens, view.select(ins.xpath), ins.value, getBytes);
    }
    return None;
  }

  /** Processes a category's spec list in order. */
  method RecordStage(xm: Modifier, cat: Category, specs: seq<string>, view: View, getBytes: Encoder)
    returns (failure: Option<Exception>)
    requires WellFormed(view)
    modifies xm
    ensures failure.None? <==> Stage(cat, specs, view, getBytes).Ok?
    ensures failure.Some? ==> failure.value == Stage(cat, specs, view, getBytes).error
    ensures failure.None? ==> xm.requests == old(xm.requests) + Stage(cat, specs, view, getBytes).value
  {
    ghost var before := xm.requests;
    for i := 0 to |specs|
      invariant Stage(cat, specs[..i], view, getBytes).Ok?
      invariant xm.requests == before + Stage(cat, specs[..i], view, getBytes).value
    {
      ghost var done := Stage(cat, specs[..i], view, getBytes).value;
      assert specs[..i + 1][..i] == specs[..i];
      failure := RecordSpec(xm, cat, specs[i], view, getBytes);
      if failure.Some? {
        StagePrefixError(cat, specs, i, view, getBytes);
        return;
      }
      ghost var next := Resolve(cat, specs[i], view, getBytes).value;
      assert Stage(cat, specs[..i + 1], view, getBytes) == Ok(done + next);
      AppendAssoc(before, done, next);
    }
    assert specs[..|specs|] == specs;
    return None;
  }

  /** The run: bind the namespaces, then record every category in order, and
      hand the requests over for writing. */
  method Run(opts: Options, doc: Option<View>, getBytes: Encoder) returns (outcome: Outcome)
    requires doc.Some? ==> WellFormed(doc.value)
    ensures outcome == Pipeline(opts, doc, getBytes)
  {
    if doc.None? {
      return NotParsed;
    }
    var view := doc.value;
    var bindings: seq<Binding> := [];
    for i := 0 to |opts.namespaces|
      invariant Namespaces(opts.namespaces[..i]) == Ok(bindings)
    {
      assert opts.namespaces[..i + 1][..i] == opts.namespaces[..i];
      var split := SplitNamespace(opts.namespaces[i]);
      if split.Err? {
        NamespacesPrefixError(opts.namespaces, i);
        return Aborted(split.error);
      }
      bindings := bindings + [split.value];
    }
    assert opts.namespaces[..|opts.namespaces|] == opts.namespaces;

    var xm := new Modifier();
    var failure := RecordStage(xm, EditAttribute, opts.edits, view, getBytes);
    if failure.Some? {
      return Aborted(failure.value);
    }
    ghost var recorded := Stage(EditAttribute, opts.edits, view, getBytes);
    assert xm.requests == recorded.value;
    failure := RecordStage(xm, Insert(AfterHead), opts.insertAfterHead, view, getBytes);
    if failure.Some? {
      return Aborted(failure.value);
    }
    recorded := Then(recorded, Stage(Insert(AfterHead), opts.insertAfterHead, view, getBytes));
    failure := RecordStage(xm, Insert(AfterElement), opts.insertAfterElement, view, getBytes);
    if failure.Some? {
      return Aborted(failure.value);
    }
    recorded := Then(recorded, Stage(Insert(AfterElement), opts.insertAfterElement, view, getBytes));
    failure := RecordStage(xm, Insert(BeforeElement), opts.insertBeforeElement, view, getBytes);
    if failure.Some? {
      return Aborted(failure.value);
    }
    recorded := Then(recorded, Stage(Insert(BeforeElement), opts.insertBeforeElement, view, getBytes));
    failure := RecordStage(xm, Insert(AfterLocation), opts.insertAfterLocation, view, getBytes);
    if failure.Some? {
      return Aborted(failure.value);
    }
    recorded := Then(recorded, Stage(Insert(AfterLocation), opts.insertAfterLocation, view, getBytes));
    failure := RecordStage(xm, Insert(AddAttribute), opts.adds, view, getBytes);
    if failure.Some? {
      return Aborted(failure.value);
    }
    recorded := Then(recorded, Stage(Insert(AddAttribute), opts.adds, view, getBytes));
    assert recorded == Edits(opts, view, getBytes);
    return Written(bindings, xm.requests);
  }

  // ---------------------------------------------------------------------------
  // Properties of a run

  /** Once a prefix of a spec list fails, the whole list fails with the same
      exception. */
  lemma {:induction false} StagePrefixError(cat: Category, specs: seq<string>, i: nat, view: View, getBytes: Encoder)
    requires WellFormed(view)
    requires i < |specs| && Stage(cat, specs[..i + 1], view, getBytes).Err?
    ensures Stage(cat, specs, view, getBytes) == Stage(cat, specs[..i + 1], view, getBytes)
    decreases |specs|
  {
    if i + 1 < |specs| {
      var init := specs[..|specs| - 1];
      assert init[..i + 1] == specs[..i + 1];
      StagePrefixError(cat, init, i, view, getBytes);
    } else {
      assert specs[..i + 1] == specs;
    }
  }

  /** A spec list split in two resolves as its halves do, in order: requests
      of an earlier spec always precede those of a later one. */
  lemma {:induction false} StageAppend(cat: Category, s1: seq<string>, s2: seq<string>, view: View, getBytes: Encoder)
    requires WellFormed(view)
    ensures Stage(cat, s1 + s2, view, getBytes)
         == Then(Stage(cat, s1, view, getBytes), Stage(cat, s2, view, getBytes))
    decreases |s2|
  {
    if |s2| == 0 {
      assert s1 + s2 == s1;
      match Stage(cat, s1, view, getBytes)
      case Err(_) =>
      case Ok(a) => assert a + [] == a;
    } else {
      var init := s2[..|s2| - 1];
      assert (s1 + s2)[..|s1 + s2| - 1] == s1 + init;
      assert (s1 + s2)[|s1 + s2| - 1] == s2[|s2| - 1];
      StageAppend(cat, s1, init, view, getBytes);
      var a, b, c := Stage(cat, s1, view, getBytes), Stage(cat, init, view, getBytes),
        Resolve(cat, s2[|s2| - 1], view, getBytes);
      if a.Ok? && b.Ok? && c.Ok? {
        AppendAssoc(a.value, b.value, c.value);
      }
    }
  }

  /** In a spec list that resolves, the spec at `k` resolves. */
  lemma {:induction false} StageOkAt(cat: Category, specs: seq<string>, k: nat, view: View, getBytes: Encoder)
    requires WellFormed(view)
    requires Stage(cat, specs, view, getBytes).Ok? && k < |specs|
    ensures Resolve(cat, specs[k], view, getBytes).Ok?
    decreases |specs|
  {
    var init := specs[..|specs| - 1];
    var done, last := Stage(cat, init, view, getBytes), Resolve(cat, specs[|specs| - 1], view, getBytes);
    assert Stage(cat, specs, view, getBytes) == Then(done, last);
    if k < |specs| - 1 {
      StageOkAt(cat, init, k, view, getBytes);
      assert init[k] == specs[k];
    }
  }

  /** A spec that fails makes its whole list fail. */
  lemma {:induction false} StageErrAt(cat: Category, specs: seq<string>, k: nat, view: View, getBytes: Encoder)
    requires WellFormed(view)
    requires k < |specs| && Resolve(cat, specs[k], view, getBytes).Err?
    ensures Stage(cat, specs, view, getBytes).Err?
    decreases |specs|
  {
    var init := specs[..|specs| - 1];
    var done, last := Stage(cat, init, view, getBytes), Resolve(cat, specs[|specs| - 1], view, getBytes);
    assert Stage(cat, specs, view, getBytes) == Then(done, last);
    if k < |specs| - 1 {
      assert init[k] == specs[k];
      StageErrAt(cat, init, k, view, getBytes);
    }
  }

  /** A spec list that resolves has every one of its specs resolve. */
  lemma StageOkEvery(cat: Category, specs: seq<string>, view: View, getBytes: Encoder)
    requires WellFormed(view)
    requires Stage(cat, specs, view, getBytes).Ok?
    ensures forall k :: 0 <= k < |specs| ==> Resolve(cat, specs[k], view, getBytes).Ok?
  {
    forall k | 0 <= k < |specs|
      ensures Resolve(cat, specs[k], view, getBytes).Ok?
    {
      StageOkAt(cat, specs, k, view, getBytes);
    }
  }

  /** A spec list that fails has a spec that fails. */
  lemma {:induction false} StageErrSome(cat: Category, specs: seq<string>, view: View, getBytes: Encoder)
    requires WellFormed(view)
    requires Stage(cat, specs, view, getBytes).Err?
    ensures exists k :: 0 <= k < |specs| && Resolve(cat, specs[k], view, getBytes).Err?
    decreases |specs|
  {
    var init := specs[..|specs| - 1];
    var n := |specs| - 1;
    if Stage(cat, init, view, getBytes).Err? {
      StageErrSome(cat, init, view, getBytes);
      var k :| 0 <= k < |init| && Resolve(cat, init[k], view, getBytes).Err?;
      assert specs[k] == init[k];
    } else {
      assert Resolve(cat, specs[n], view, getBytes).Err?;
    }
  }

  /** A spec list resolves exactly when every one of its specs does. */
  lemma StageOk(cat: Category, specs: seq<string>, view: View, getBytes: Encoder)
    requires WellFormed(view)
    ensures Stage(cat, specs, view, getBytes).Ok? <==>
      forall k :: 0 <= k < |specs| ==> Resolve(cat, specs[k], view, getBytes).Ok?
  {
    if Stage(cat, specs, view, getBytes).Ok? {
      StageOkEvery(cat, specs, view, getBytes);
    } else {
      StageErrSome(cat, specs, view, getBytes);
    }
  }

  /** A spec resolves exactly when its parser accepts it. */
  lemma ResolveOk(cat: Category, spec: string, view: View, getBytes: Encoder)
    requires WellFormed(view)
    ensures Resolve(cat, spec, view, getBytes).Ok? <==>
      if cat == EditAttribute then AttributeEdits.Parse(spec).Ok? else ':' in spec
  {
  }

  /** The exception of a spec list is that of its first malformed spec. */
  lemma StageFirstError(cat: Category, specs: seq<string>, k: nat, view: View, getBytes: Encoder)
    requires WellFormed(view)
    requires k < |specs| && Resolve(cat, specs[k], view, getBytes).Err?
    requires forall j :: 0 <= j < k ==> Resolve(cat, specs[j], view, getBytes).Ok?
    ensures Stage(cat, specs, view, getBytes) == Err(Resolve(cat, specs[k], view, getBytes).error)
  {
    var front := specs[..k];
    assert forall j :: 0 <= j < |front| ==> front[j] == specs[j];
    StageOk(cat, front, view, getBytes);
    var done, bad := Stage(cat, front, view, getBytes), Resolve(cat, specs[k], view, getBytes);
    assert specs[..k + 1][..k] == front && specs[..k + 1][k] == specs[k];
    assert Stage(cat, specs[..k + 1], view, getBytes) == Then(done, bad);
    StagePrefixError(cat, specs, k, view, getBytes);
  }

  /** A malformed spec in any category aborts the run: nothing is written. */
  lemma RejectedSpecAborts(opts: Options, view: View, getBytes: Encoder, cat: Category, k: nat)
    requires WellFormed(view)
    requires k < |SpecsOf(opts, cat)| && Resolve(cat, SpecsOf(opts, cat)[k], view, getBytes).Err?
    ensures Pipeline(opts, Some(view), getBytes).Aborted?
  {
    var specs := SpecsOf(opts, cat);
    StageErrAt(cat, specs, k, view, getBytes);
    var bad := Stage(cat, specs, view, getBytes);
    assert bad.Err?;
    var s0 := Stage(EditAttribute, opts.edits, view, getBytes);
    var s1 := Stage(Insert(AfterHead), opts.insertAfterHead, view, getBytes);
    var s2 := Stage(Insert(AfterElement), opts.insertAfterElement, view, getBytes);
    var s3 := Stage(Insert(BeforeElement), opts.insertBeforeElement, view, getBytes);
    var s4 := Stage(Insert(AfterLocation), opts.insertAfterLocation, view, getBytes);
    var s5 := Stage(Insert(AddAttribute), opts.adds, view, getBytes);
    match cat {
      case EditAttribute => assert s0 == bad;
      case Insert(AfterHead) => assert s1 == bad;
      case Insert(AfterElement) => assert s2 == bad;
      case Insert(BeforeElement) => assert s3 == bad;
      case Insert(AfterLocation) => assert s4 == bad;
      case Insert(AddAttribute) => assert s5 == bad;
    }
    ChainErr(s0, s1, s2, s3, s4, s5);
  }

  /** An exception in any of six sequenced stages is the sequence's outcome. */
  lemma ChainErr(s0: Result<seq<EditRequest>, Exception>, s1: Result<seq<EditRequest>, Exception>,
                 s2: Result<seq<EditRequest>, Exception>, s3: Result<seq<EditRequest>, Exception>,
                 s4: Result<seq<EditRequest>, Exception>, s5: Result<seq<EditRequest>, Exception>)
    requires s0.Err? || s1.Err? || s2.Err? || s3.Err? || s4.Err? || s5.Err?
    ensures Then(Then(Then(Then(Then(s0, s1), s2), s3), s4), s5).Err?
  {
  }

  /** A run with no edit or insertion specs writes the document back with no
      edit requests. */
  lemma NoSpecsNoRequests(opts: Options, view: View, getBytes: Encoder)
    requires WellFormed(view)
    requires opts.edits == opts.adds == opts.insertAfterHead == opts.insertAfterElement == []
    requires opts.insertBeforeElement == opts.insertAfterLocation == []
    requires forall k :: 0 <= k < |opts.namespaces| ==> ':' in opts.namespaces[k]
    ensures Pipeline(opts, Some(view), getBytes) == Written(Namespaces(opts.namespaces).value, [])
  {
  }

  /** The separator option has no effect on a run. */
  lemma SeparatorIgnored(opts: Options, separator: string, doc: Option<View>, getBytes: Encoder)
    requires doc.Some? ==> WellFormed(doc.value)
    ensures Pipeline(opts.(separator := separator), doc, getBytes) == Pipeline(opts, doc, getBytes)
  {
  }

  // ---------------------------------------------------------------------------
  // Category order

  /** The position of a request's kind in the order categories are processed;
      both byte insertions (after a location, and attribute additions) share
      the last place. */
  function Rank(request: EditRequest): nat {
    match request
    case UpdateToken(_, _) => 0
    case InsertAfterHead(_, _) => 1
    case InsertAfterElement(_, _) => 2
    case InsertBeforeElement(_, _) => 3
    case InsertBytesAt(_, _) => 4
  }

  function CategoryRank(cat: Category): nat {
    match cat
    case EditAttribute => 0
    case Insert(AfterHead) => 1
    case Insert(AfterElement) => 2
    case Insert(BeforeElement) => 3
    case Insert(_) => 4
  }

  predicate RanksOrdered(requests: seq<EditRequest>) {
    forall i, j :: 0 <= i < j < |requests| ==> Rank(requests[i]) <= Rank(requests[j])
  }

  /** Every request of a category's specs is of that category's kind. */
  lemma {:induction false} StageRank(cat: Category, specs: seq<string>, view: View, getBytes: Encoder)
    requires WellFormed(view)
    ensures Stage(cat, specs, view, getBytes).Ok? ==>
      forall x :: x in Stage(cat, specs, view, getBytes).value ==> Rank(x) == CategoryRank(cat)
    decreases |specs|
  {
    if |specs| > 0 {
      var init, last := specs[..|specs| - 1], specs[|specs| - 1];
      StageRank(cat, init, view, getBytes);
      ResolveRank(cat, last, view, getBytes);
      var done, next := Stage(cat, init, view, getBytes), Resolve(cat, last, view, getBytes);
      assert Stage(cat, specs, view, getBytes) == Then(done, next);
      if done.Ok? && next.Ok? {
        assert forall x :: x in done.value + next.value ==> x in done.value || x in next.value;
      }
    }
  }

  /** Every request of one spec is of its category's kind. */
  lemma ResolveRank(cat: Category, spec: string, view: View, getBytes: Encoder)
    requires WellFormed(view)
    ensures Resolve(cat, spec, view, getBytes).Ok? ==>
      forall x :: x in Resolve(cat, spec, view, getBytes).value ==> Rank(x) == CategoryRank(cat)
  {
    match cat
    case EditAttribute =>
    case Insert(anchor) =>
      var r := Resolve(cat, spec, view, getBytes);
      if r.Ok? && r.value != [] {
        assert r.value == [r.value[0]];
      }
  }

  /** Appending requests of one rank, no lower than any so far, keeps the order. */
  lemma OrderedAppend(done: seq<EditRequest>, next: seq<EditRequest>, rank: nat)
    requires RanksOrdered(done) && forall x :: x in done ==> Rank(x) <= rank
    requires forall x :: x in next ==> Rank(x) == rank
    ensures RanksOrdered(done + next) && forall x :: x in done + next ==> Rank(x) <= rank
  {
    var s := done + next;
    forall i, j | 0 <= i < j < |s|
      ensures Rank(s[i]) <= Rank(s[j])
    {
      if j < |done| {
        assert s[i] == done[i] && s[j] == done[j];
      } else if i < |done| {
        assert s[i] in done && s[j] in next;
      } else {
        assert s[i] in next && s[j] in next;
      }
    }
  }

  /** Sequencing a stage of one rank after ordered requests of no higher
      rank keeps them ordered. */
  lemma ThenOrdered(done: Result<seq<EditRequest>, Exception>, next: Result<seq<EditRequest>, Exception>, rank: nat)
    requires done.Ok? ==> RanksOrdered(done.value) && forall x :: x in done.value ==> Rank(x) <= rank
    requires next.Ok? ==> forall x :: x in next.value ==> Rank(x) == rank
    ensures Then(done, next).Ok? ==>
      RanksOrdered(Then(done, next).value) && forall x :: x in Then(done, next).value ==> Rank(x) <= rank
  {
    if done.Ok? && next.Ok? {
      OrderedAppend(done.value, next.value, rank);
    }
  }

  /** Six stages sequenced in rank order give ordered requests. */
  lemma ChainOrdered(s0: Result<seq<EditRequest>, Exception>, s1: Result<seq<EditRequest>, Exception>,
                     s2: Result<seq<EditRequest>, Exception>, s3: Result<seq<EditRequest>, Exception>,
                     s4: Result<seq<EditRequest>, Exception>, s5: Result<seq<EditRequest>, Exception>)
    requires s0.Ok? ==> forall x :: x in s0.value ==> Rank(x) == 0
    requires s1.Ok? ==> forall x :: x in s1.value ==> Rank(x) == 1
    requires s2.Ok? ==> forall x :: x in s2.value ==> Rank(x) == 2
    requires s3.Ok? ==> forall x :: x in s3.value ==> Rank(x) == 3
    requires s4.Ok? ==> forall x :: x in s4.value ==> Rank(x) == 4
    requires s5.Ok? ==> forall x :: x in s5.value ==> Rank(x) == 4
    ensures var r := Then(Then(Then(Then(Then(s0, s1), s2), s3), s4), s5);
      r.Ok? ==> RanksOrdered(r.value)
  {
    ThenOrdered(Ok([]), s0, 0);
    assert Then(Ok([]), s0) == s0 by {
      if s0.Ok? {
        assert [] + s0.value == s0.value;
      }
    }
    var t1 := Then(s0, s1);
    ThenOrdered(s0, s1, 1);
    var t2 := Then(t1, s2);
    ThenOrdered(t1, s2, 2);
    var t3 := Then(t2, s3);
    ThenOrdered(t2, s3, 3);
    var t4 := Then(t3, s4);
    ThenOrdered(t3, s4, 4);
    ThenOrdered(t4, s5, 4);
  }

  /** The requests of all categories come in category order. */
  lemma EditsOrdered(opts: Options, view: View, getBytes: Encoder)
    requires WellFormed(view)
    ensures Edits(opts, view, getBytes).Ok? ==> RanksOrdered(Edits(opts, view, getBytes).value)
  {
    StageRank(EditAttribute, opts.edits, view, getBytes);
    StageRank(Insert(AfterHead), opts.insertAfterHead, view, getBytes);
    StageRank(Insert(AfterElement), opts.insertAfterElement, view, getBytes);
    StageRank(Insert(BeforeElement), opts.insertBeforeElement, view, getBytes);
    StageRank(Insert(AfterLocation), opts.insertAfterLocation, view, getBytes);
    StageRank(Insert(AddAttribute), opts.adds, view, getBytes);
    ChainOrdered(
      Stage(EditAttribute, opts.edits, view, getBytes),
      Stage(Insert(AfterHead), opts.insertAfterHead, view, getBytes),
      Stage(Insert(AfterElement), opts.insertAfterElement, view, getBytes),
      Stage(Insert(BeforeElement), opts.insertBeforeElement, view, getBytes),
      Stage(Insert(AfterLocation), opts.insertAfterLocation, view, getBytes),
      Stage(Insert(AddAttribute), opts.adds, view, getBytes));
  }

  /** The requests of a written run come in category order: attribute
      updates, then insertions after the head, after the element, before the
      element, and byte insertions last. */
  lemma PipelineOrdered(opts: Options, doc: Option<View>, getBytes: Encoder)
    requires doc.Some? ==> WellFormed(doc.value)
    requires Pipeline(opts, doc, getBytes).Written?
    ensures RanksOrdered(Pipeline(opts, doc, getBytes).requests)
  {
    EditsOrdered(opts, doc.value, getBytes);
  }
}
