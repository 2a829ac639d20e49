# surgixml edit engine, modelled in Dafny

`surgixml` edits an XML file in place without re-serialising it. It parses the
file into a token table, where each token records its kind, byte offset and
length. It evaluates XPath expressions against that table and records edit
requests in a modifier. The modifier then splices the requests into the
original bytes. Everything outside the edited ranges, including whitespace,
comments and attribute quoting, is left as it was.

This project models the engine's core:

- `AttributeEdits`: the attribute-edit spec `xpath@attribute=newValue`. The
  parser cuts at the last `@`, then at the first `=` after that `@`. The
  module also models the record's `toString`.
- `ElementInserts`: the insertion spec `xpath:fragment`. The parser cuts at
  the first `:`.
- `JavaLang`: the parts of `String.indexOf` and `String.lastIndexOf` the
  parsers use, with Java's -1 for "not found", and the two exceptions the
  specs can raise.
- `Vtd`: the parsed document as the engine sees it. That is the token table,
  the matches of each XPath in evaluation order, and the attribute-value
  lookup on a matched element. It also holds `Modifier`, a class whose
  methods append edit requests to a list.
- `Surgixml`: `run` as the method `Run`, together with its specification
  `Pipeline`. The method follows the source step by step:
  - it binds the namespaces, each cut at its first `:`;
  - it creates the modifier;
  - it processes the six spec categories in their fixed order. These are
    attribute edits, insert-after-head, insert-after-element,
    insert-before-element, insert-after-location and add-attribute.
  Each category is a loop over its specs, in `RecordStage` and `RecordSpec`.
  The attribute-edit loop visits every match (`RecordAttributeEdit`). Each
  insertion uses only the first match. The add-attribute scan walks forward
  from the start tag with a `break` (`ScanAttributes`).
  `Stage`, `Edits` and `Pipeline` are the functions these methods are proved
  against. The lemmas state the properties of those functions.

The XML library's parser, XPath evaluator and splicer are inputs of the model:
- a parse failure is `doc == None`;
- the matches of an XPath are `view.select(xpath)`;
- the value token of an attribute is `view.attrVal(element, name)`;
- the bytes of a fragment are `getBytes(fragment)`.

How a run ends:
- `NotParsed`: the document failed to parse, and nothing is written.
- `Aborted(e)`: a spec threw exception `e`. The file is not written.
- `Written(bindings, requests)`: the requests handed to the modifier for
  output.

How the specs are cut, and what a malformed one does:
- The `--separator` option claims to set the separator between XPath and
  value (`Surgixml.java:49-51`). The parser ignores it: the one-argument
  `ElementInsert.parse` (`ElementInsert.java:5-9`) always cuts at the first
  `:`. So a fragment may contain `:`, but an XPath may not. Lemma
  `SeparatorIgnored` states that the option changes nothing.
- The call sites pass a second argument, `ElementInsert.parse(insert, separator)`
  (`Surgixml.java:91,104,114,124,150`), but `ElementInsert` defines only the
  one-argument form.
- A namespace spec without `:` raises `StringIndexOutOfBounds` from
  `substring(0, -1)` (`Surgixml.java:66`). It is raised before the `try`
  block, so it escapes `run`. In both this case and the case of a malformed
  edit spec (an `IllegalArgumentException` caught at `Surgixml.java:178-180`),
  nothing is written. The model gives both `Aborted`.

The arithmetic of the insertion offsets is reproduced as written:
- Insert-after-location adds 3 to the end of a comment's text, which is past
  `-->`. It adds 1 to the end of a start tag's name and 2 to the end of a
  processing-instruction name. Both of these land past the closing delimiter
  only when the tag has no attributes, or the instruction has no value.
- Add-attribute inserts one byte past the end of the last attribute token,
  which is just after the closing quote of the last value. It records nothing
  when the scan found no attribute.
- The scan continues only over attribute names and values. It stops at a
  namespace-declaration token (`AttrNs`).

## Model

| member | source | states |
|---|---|---|
| JavaLang.IndexOfFrom | src/main/java/chiralsoftware/surgixml/AttributeEdit.java:7 | `indexOf(c, from)`: the result is -1 or an index at or after `from` holding `c`, with no `c` between `from` and it; a negative `from` counts as 0 |
| JavaLang.IndexOf | src/main/java/chiralsoftware/surgixml/ElementInsert.java:6 | -1 exactly when `c` does not occur; otherwise the first occurrence |
| JavaLang.LastIndexOf | src/main/java/chiralsoftware/surgixml/AttributeEdit.java:6 | -1 exactly when `c` does not occur; otherwise an occurrence with none after it |
| AttributeEdits.Parse | src/main/java/chiralsoftware/surgixml/AttributeEdit.java:5-14 | a rejected spec raises `IllegalArgument("invalid attribute: " + param)` |
| AttributeEdits.CutSound | src/main/java/chiralsoftware/surgixml/AttributeEdit.java:11-13 | cutting at an `@` with none after it, then at the first `=` after it, gives a separable edit that writes back to the spec |
| AttributeEdits.ParseSound | src/main/java/chiralsoftware/surgixml/AttributeEdit.java:5-14 | an accepted spec is the edit written back as `xpath@attribute=newValue`; attribute and value hold no `@`, and the attribute holds no `=` |
| AttributeEdits.ParseRejects | src/main/java/chiralsoftware/surgixml/AttributeEdit.java:6-10 | a spec is rejected exactly when it has no `@` or every `=` lies before its last `@` |
| AttributeEdits.ParseCompose | src/main/java/chiralsoftware/surgixml/AttributeEdit.java:5-14 | round trip: a separable edit written out parses back to itself |
| AttributeEdits.ComposeInjective | src/main/java/chiralsoftware/surgixml/AttributeEdit.java:11-13 | two separable edits with the same written form are equal |
| AttributeEdits.ParseExactly | src/main/java/chiralsoftware/surgixml/AttributeEdit.java:5-14 | `Parse(param) == Ok(e)` if and only if `param` is `e` written out and `e` is separable |
| AttributeEdits.ToString | src/main/java/chiralsoftware/surgixml/AttributeEdit.java:16-23 | the rendering has length of the three fields plus 50, starts `AttributeEdit{xpath='` and ends `'}` |
| AttributeEdits.ToStringLayout | src/main/java/chiralsoftware/surgixml/AttributeEdit.java:16-23 | the xpath, attribute and value sit at fixed offsets, each followed by its closing quote |
| AttributeEdits.ToStringInjective | src/main/java/chiralsoftware/surgixml/AttributeEdit.java:16-23 | when xpath and attribute hold no quote, the rendering determines the edit |
| ElementInserts.Parse | src/main/java/chiralsoftware/surgixml/ElementInsert.java:5-9 | rejected exactly when there is no `:`, with `IllegalArgument("Invalid param: " + param)`; otherwise the xpath is everything before the first `:`, and xpath, `:`, value recompose the spec |
| ElementInserts.ParseCompose | src/main/java/chiralsoftware/surgixml/ElementInsert.java:5-9 | round trip for insertions whose xpath has no `:` |
| ElementInserts.ParseExactly | src/main/java/chiralsoftware/surgixml/ElementInsert.java:5-9 | `Parse(param) == Ok(e)` if and only if `param` is `e` written out and `e`'s xpath has no `:` |
| Vtd.Modifier.constructor | src/main/java/chiralsoftware/surgixml/Surgixml.java:73 | a new modifier holds no requests |
| Vtd.Modifier.UpdateToken | src/main/java/chiralsoftware/surgixml/Surgixml.java:84 | appends one token update and changes nothing else |
| Vtd.Modifier.InsertAfterHead | src/main/java/chiralsoftware/surgixml/Surgixml.java:94 | appends one after-head insertion |
| Vtd.Modifier.InsertAfterElement | src/main/java/chiralsoftware/surgixml/Surgixml.java:107 | appends one after-element insertion |
| Vtd.Modifier.InsertBeforeElement | src/main/java/chiralsoftware/surgixml/Surgixml.java:117 | appends one before-element insertion |
| Vtd.Modifier.InsertBytesAt | src/main/java/chiralsoftware/surgixml/Surgixml.java:141 | appends one byte insertion at an offset |
| Surgixml.SplitNamespace | src/main/java/chiralsoftware/surgixml/Surgixml.java:66-67 | fails exactly when there is no `:`, with `StringIndexOutOfBounds(0, -1, length)`; otherwise prefix, `:`, uri recompose the spec and the prefix has no `:` |
| Surgixml.Namespaces | src/main/java/chiralsoftware/surgixml/Surgixml.java:64-71 | succeeds exactly when every spec has a `:`; then one binding per spec, in order, each recomposing its spec |
| Surgixml.NamespacesPrefixError | src/main/java/chiralsoftware/surgixml/Surgixml.java:64-71 | the first failing namespace spec decides the exception |
| Surgixml.AttributeUpdates | src/main/java/chiralsoftware/surgixml/Surgixml.java:81-85 | at most one request per match, each a token update carrying the new value |
| Surgixml.AttributeUpdatesSound | src/main/java/chiralsoftware/surgixml/Surgixml.java:81-85 | every update targets the attribute's value token on some match |
| Surgixml.AttributeUpdatesComplete | src/main/java/chiralsoftware/surgixml/Surgixml.java:81-85 | every match that has the attribute gets its update: the loop visits all matches |
| Surgixml.AttributeUpdatesEmpty | src/main/java/chiralsoftware/surgixml/Surgixml.java:81-85 | nothing is recorded if and only if no match has the attribute |
| Surgixml.AttributeUpdatesEveryMatch | src/main/java/chiralsoftware/surgixml/Surgixml.java:81-85 | when all matches have the attribute, one update per match, in match order |
| Surgixml.AttributeUpdatesSingle | src/main/java/chiralsoftware/surgixml/Surgixml.java:82-84 | one match gets exactly its own update when it has the attribute, and nothing otherwise |
| Surgixml.AttributeUpdatesAppend | src/main/java/chiralsoftware/surgixml/Surgixml.java:81-85 | the matches are handled one after another: the updates of two runs of matches are the first run's followed by the second's, so there is one update per match that has the attribute, in match order |
| Surgixml.Correction | src/main/java/chiralsoftware/surgixml/Surgixml.java:134-139 | the after-location correction is the length of `-->` for a comment, of `?>` for a PI name, of `>` for a start tag, and 1 otherwise |
| Surgixml.AttrRunEnd | src/main/java/chiralsoftware/surgixml/Surgixml.java:158-165 | the scan's stopping point: every token before it is an attribute name or value, the token at it is not |
| Surgixml.InsertRequests | src/main/java/chiralsoftware/surgixml/Surgixml.java:89-172 | an insertion records at most one request, none without a match, aimed at the first match; after-location lands 1 to 3 bytes past the token; add-attribute records exactly when the match is a start tag with a positive attribute end, at that end plus one |
| Surgixml.InsertUsesFirstMatchOnly | src/main/java/chiralsoftware/surgixml/Surgixml.java:93-94 | matches after the first do not affect an insertion |
| Surgixml.AddAttributeNeedsLeadingAttribute | src/main/java/chiralsoftware/surgixml/Surgixml.java:157-168 | when the token after the start tag is not an attribute name or value, nothing is added |
| Surgixml.AfterLocationCommentExample | src/main/java/chiralsoftware/surgixml/Surgixml.java:126-141 | on `<!-- c -->` the insertion lands just past `-->` |
| Surgixml.AddAttributeExample | src/main/java/chiralsoftware/surgixml/Surgixml.java:156-168 | on `<e a="1" b="2">` the addition lands on the `>`, after the last closing quote |
| Surgixml.ScanAttributes | src/main/java/chiralsoftware/surgixml/Surgixml.java:157-165 | the loop with `break` computes the end of the last attribute token of the run, or -1 |
| Surgixml.RecordAttributeEdit | src/main/java/chiralsoftware/surgixml/Surgixml.java:79-85 | the while loop appends exactly `AttributeUpdates` of the matches |
| Surgixml.RecordInsert | src/main/java/chiralsoftware/surgixml/Surgixml.java:92-168 | one insertion appends exactly `InsertRequests` of its matches: only the first match, with the location correction or the attribute scan |
| Surgixml.RecordSpec | src/main/java/chiralsoftware/surgixml/Surgixml.java:76-168 | one spec fails exactly when its parser throws, with that exception; otherwise it appends exactly its requests |
| Surgixml.RecordStage | src/main/java/chiralsoftware/surgixml/Surgixml.java:75-172 | a category's loop fails exactly when `Stage` does, with its exception; otherwise it appends exactly the stage's requests |
| Surgixml.Run | src/main/java/chiralsoftware/surgixml/Surgixml.java:55-181 | the run's outcome is exactly `Pipeline` of its inputs |
| Surgixml.StagePrefixError | src/main/java/chiralsoftware/surgixml/Surgixml.java:75-172 | once a spec fails, later specs of the list do not change the exception |
| Surgixml.StageAppend | src/main/java/chiralsoftware/surgixml/Surgixml.java:75-172 | a spec list resolves as its two halves do, in order |
| Surgixml.StageOkAt | src/main/java/chiralsoftware/surgixml/Surgixml.java:75-172 | in a resolved list, the spec at any position resolves |
| Surgixml.StageErrAt | src/main/java/chiralsoftware/surgixml/Surgixml.java:75-172 | a failing spec at any position makes its whole list fail |
| Surgixml.StageOkEvery | src/main/java/chiralsoftware/surgixml/Surgixml.java:75-172 | a resolved list has every spec resolved |
| Surgixml.StageErrSome | src/main/java/chiralsoftware/surgixml/Surgixml.java:75-172 | a failed list has a failing spec |
| Surgixml.StageOk | src/main/java/chiralsoftware/surgixml/Surgixml.java:75-172 | a spec list resolves if and only if every spec does |
| Surgixml.ResolveOk | src/main/java/chiralsoftware/surgixml/Surgixml.java:77 | a spec resolves if and only if its parser accepts it |
| Surgixml.StageFirstError | src/main/java/chiralsoftware/surgixml/Surgixml.java:75-172 | a list's exception is that of its first malformed spec |
| Surgixml.RejectedSpecAborts | src/main/java/chiralsoftware/surgixml/Surgixml.java:72-180 | one malformed spec in any category aborts the run, and nothing is written |
| Surgixml.ChainErr | src/main/java/chiralsoftware/surgixml/Surgixml.java:72-180 | an exception in any category ends the whole sequence with an exception |
| Surgixml.NoSpecsNoRequests | src/main/java/chiralsoftware/surgixml/Surgixml.java:72-177 | with no edit or insertion specs, the document is written with no requests |
| Surgixml.SeparatorIgnored | src/main/java/chiralsoftware/surgixml/Surgixml.java:49-51 | the separator option does not change the outcome |
| Surgixml.StageRank | src/main/java/chiralsoftware/surgixml/Surgixml.java:75-172 | every request of a category is of that category's kind |
| Surgixml.ResolveRank | src/main/java/chiralsoftware/surgixml/Surgixml.java:76-168 | every request of one spec is of its category's kind |
| Surgixml.ThenOrdered | src/main/java/chiralsoftware/surgixml/Surgixml.java:75-172 | sequencing a stage of one rank after ordered requests of no higher rank keeps them ordered |
| Surgixml.ChainOrdered | src/main/java/chiralsoftware/surgixml/Surgixml.java:75-172 | six stages sequenced in rank order give ordered requests |
| Surgixml.EditsOrdered | src/main/java/chiralsoftware/surgixml/Surgixml.java:75-172 | the requests of all six categories come in category order |
| Surgixml.OrderedAppend | src/main/java/chiralsoftware/surgixml/Surgixml.java:75-172 | appending requests of a rank no lower than any so far keeps them ordered |
| Surgixml.PipelineOrdered | src/main/java/chiralsoftware/surgixml/Surgixml.java:75-172 | requests of a written run come in category order: updates, after-head, after-element, before-element, then byte insertions |

## Left out

- Command-line parsing (`Main.java` and the option declarations): the model takes the parsed options as an `Options` value, with an option that was not given as the empty list.
- XML parsing, the token table's construction, XPath compilation and evaluation, and attribute lookup are the XML library's work. They are the inputs `doc`, `view.select` and `view.attrVal`. Whether namespace-aware parsing is on (`Surgixml.java:58`) is part of how `doc` was built.
- Exceptions thrown by XPath compilation or evaluation, and by the modifier itself (for example a second update of the same token), are not modelled. The model records every request.
- Splicing the requests into the output, and writing and closing the file (`Surgixml.java:175-177`), are left out: `Written` hands over the request list.
- The stack-trace and error printing is left out. Both ways a run can fail are `Aborted` with the exception.
- `String.getBytes` uses the platform charset, so it is the parameter `getBytes`.
- `vn.toNormalizedString` (`Surgixml.java:128,154`) computes a value nobody uses.
- Java `int` overflow of token offsets is not modelled. Offsets are unbounded integers.
- Java strings are modelled as sequences of `char`. UTF-16 surrogates are not distinguished.
- Surgixml.InsertRequests: for after-location it states the offset as 1 to 3 bytes past the token. `Correction` and `AfterLocationCommentExample` state the exact amount.
- Vtd.Modifier: records which element an insertion is relative to by its token index. The library instead uses the navigator's cursor, which sits on the first match.
- `view.select`: the matches depend only on the XPath text. The namespace bindings the run declares (`Surgixml.java:68`) are computed into `Written` but are not fed to the evaluator in the model. They are taken as already built into `select`.
