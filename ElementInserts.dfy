/** A fragment insertion `xpath:fragment`: the anchor XPath and the raw text to
    insert. The spec is cut at its first `:`. */
module ElementInserts {
  import opened Wrappers
  import opened JavaLang

  datatype ElementInsert = ElementInsert(xpath: string, value: string)

  /** The spec string an insertion is written as on the command line. */
  function Compose(e: ElementInsert): string {
    e.xpath + ":" + e.value
  }

  /** Cuts the spec at its first `:`; throws IllegalArgumentException when
      there is none. The fragment may itself contain `:`. */
  function Parse(param: string): (r: Result<ElementInsert, Exception>)
    ensures r.Err? <==> ':' !in param
    ensures r.Err? ==> r.error == IllegalArgument("Invalid param: " + param)
    ensures r.Ok? ==> Compose(r.value) == param && ':' !in r.value.xpath
    ensures r.Ok? ==> |r.value.xpath| == IndexOf(param, ':')
    ensures r.Ok? ==> |r.value.value| == |param| - |r.value.xpath| - 1
  {
    var idx := IndexOf(param, ':');
    if idx == -1 then Err(IllegalArgument("Invalid param: " + param))
    else
      assert param == param[..idx] + ":" + param[idx + 1..];
      Ok(ElementInsert(param[..idx], param[idx + 1..]))
  }

  /** Round trip: an insertion whose XPath has no `:`, written out and parsed,
      comes back unchanged. */
  lemma ParseCompose(e: ElementInsert)
    requires ':' !in e.xpath
    ensures Parse(Compose(e)) == Ok(e)
  {
    var r := Parse(Compose(e));
    assert Compose(e)[|e.xpath|] == ':';
    SplitAtFirst(r.value.xpath, r.value.value, e.xpath, e.value, ':');
  }

  /** Parse gives back an insertion exactly when the spec is that insertion
      written out and its XPath has no `:`. */
  lemma ParseExactly(param: string, e: ElementInsert)
    ensures Parse(param) == Ok(e) <==> Compose(e) == param && ':' !in e.xpath
  {
    if Compose(e) == param && ':' !in e.xpath {
      ParseCompose(e);
    }
  }
}
