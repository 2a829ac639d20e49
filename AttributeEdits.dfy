/** An attribute edit `xpath@attribute=newValue`: the element XPath, the
    attribute's name and the text that replaces the attribute's value. */
module AttributeEdits {
  import opened Wrappers
  import opened JavaLang

  datatype AttributeEdit = AttributeEdit(xpath: string, attribute: string, newValue: string)

  /** The spec string an edit is written as on the command line. */
  function Compose(e: AttributeEdit): string {
    e.xpath + "@" + e.attribute + "=" + e.newValue
  }

  /** The pieces after the last `@` carry no `@`, and the name carries no `=`:
      exactly the edits that Parse can give back. The XPath is unconstrained. */
  predicate Separable(e: AttributeEdit) {
    '@' !in e.attribute && '@' !in e.newValue && '=' !in e.attribute
  }

  /** Cuts the spec at its last `@` and then at the first `=` after that `@`;
      throws IllegalArgumentException when either is missing. */
  function Parse(param: string): (r: Result<AttributeEdit, Exception>)
    ensures r.Err? ==> r.error == IllegalArgument("invalid attribute: " + param)
  {
    var atIndex := LastIndexOf(param, '@');
    var eqIndex := IndexOfFrom(param, '=', atIndex);
    if atIndex == -1 || eqIndex == -1 then
      Err(IllegalArgument("invalid attribute: " + param))
    else
      Ok(AttributeEdit(param[..atIndex], param[atIndex + 1..eqIndex], param[eqIndex + 1..]))
  }

  /** Cutting a spec at an `@` with none after it, and then at the first `=`
      after that, gives a separable edit that writes back to the spec. */
  lemma CutSound(param: string, at: nat, eq: nat)
    requires at < eq < |param| && param[at] == '@' && param[eq] == '='
    requires '@' !in param[at + 1..] && '=' !in param[at + 1..eq]
    ensures var e := AttributeEdit(param[..at], param[at + 1..eq], param[eq + 1..]);
      Compose(e) == param && Separable(e)
  {
    var x, a, v := param[..at], param[at + 1..eq], param[eq + 1..];
    var tail := param[at + 1..];
    assert tail == a + "=" + v by {
      assert tail[..eq - at - 1] == a && tail[eq - at - 1] == '=' && tail[eq - at..] == v;
    }
    assert param == x + "@" + tail by {
      assert param == param[..at] + [param[at]] + param[at + 1..];
    }
    assert '@' !in a && '@' !in v by {
      assert forall k :: 0 <= k < |a| ==> a[k] == tail[k];
      assert forall k :: 0 <= k < |v| ==> v[k] == tail[eq - at + k];
    }
  }

  /** An accepted spec is the parsed edit written out, and the edit is
      separable: the XPath is everything before the last `@`, the name stops
      at the first `=` after it. */
  lemma ParseSound(param: string)
    ensures Parse(param).Ok? ==> Compose(Parse(param).value) == param && Separable(Parse(param).value)
  {
    var at := LastIndexOf(param, '@');
    var eq := IndexOfFrom(param, '=', at);
    if at != -1 && eq != -1 {
      var a := param[at + 1..eq];
      assert '=' !in a by {
        assert forall k :: 0 <= k < |a| ==> a[k] == param[at + 1 + k];
      }
      CutSound(param, at, eq);
    }
  }

  /** A spec is rejected exactly when it has no `@`, or when every `=` in it
      comes before its last `@`. */
  lemma ParseRejects(param: string)
    ensures Parse(param).Err? <==>
      ('@' !in param || forall j :: 0 <= j < |param| && param[j] == '=' ==> '@' in param[j + 1..])
  {
    var atIndex := LastIndexOf(param, '@');
    var eqIndex := IndexOfFrom(param, '=', atIndex);
    if atIndex == -1 {
    } else if eqIndex == -1 {
      forall j | 0 <= j < |param| && param[j] == '='
        ensures '@' in param[j + 1..]
      {
        assert param[j + 1..][atIndex - j - 1] == '@';
      }
    } else {
      assert param[eqIndex + 1..] == param[atIndex + 1..][eqIndex - atIndex..];
    }
  }

  /** Where the pieces of an edit sit in its written-out spec. */
  lemma ComposeSlices(e: AttributeEdit)
    ensures var param, at, eq := Compose(e), |e.xpath|, |e.xpath| + 1 + |e.attribute|;
      |param| == eq + 1 + |e.newValue| &&
      param[..at] == e.xpath && param[at] == '@' && param[at + 1..] == e.attribute + "=" + e.newValue &&
      param[at..eq] == ['@'] + e.attribute && param[at + 1..eq] == e.attribute &&
      param[eq] == '=' && param[eq + 1..] == e.newValue
  {
    var param, at, eq := Compose(e), |e.xpath|, |e.xpath| + 1 + |e.attribute|;
    var tail := e.attribute + "=" + e.newValue;
    assert param == e.xpath + ['@'] + tail;
    assert param[at + 1..] == tail;
    assert param[at + 1..eq] == tail[..|e.attribute|];
  }

  /** Round trip: a separable edit, written out and parsed, comes back unchanged. */
  lemma ParseCompose(e: AttributeEdit)
    requires Separable(e)
    ensures Parse(Compose(e)) == Ok(e)
  {
    var param, at, eq := Compose(e), |e.xpath|, |e.xpath| + 1 + |e.attribute|;
    ComposeSlices(e);
    assert '@' !in e.attribute + "=" + e.newValue;
    LastIndexOfAt(param, '@', at);
    assert '=' !in ['@'] + e.attribute;
    IndexOfFromAt(param, '=', at, eq);
    var r := Parse(param);
    assert r.Ok?;
    ParseSound(param);
    ComposeInjective(r.value, e);
  }

  /** Separable edits are determined by the spec they are written as. */
  lemma ComposeInjective(e1: AttributeEdit, e2: AttributeEdit)
    requires Separable(e1) && Separable(e2) && Compose(e1) == Compose(e2)
    ensures e1 == e2
  {
    var t1, t2 := e1.attribute + "=" + e1.newValue, e2.attribute + "=" + e2.newValue;
    assert Compose(e1) == e1.xpath + ['@'] + t1;
    assert Compose(e2) == e2.xpath + ['@'] + t2;
    SplitAtLast(e1.xpath, t1, e2.xpath, t2, '@');
    SplitAtFirst(e1.attribute, e1.newValue, e2.attribute, e2.newValue, '=');
  }

  /** Parse gives back an edit exactly when the spec is that edit written out
      and the edit is separable: the cut points are the only ones possible. */
  lemma ParseExactly(param: string, e: AttributeEdit)
    ensures Parse(param) == Ok(e) <==> Compose(e) == param && Separable(e)
  {
    ParseSound(param);
    if Compose(e) == param && Separable(e) {
      ParseCompose(e);
    }
  }

  /** Record.toString: `AttributeEdit{xpath='…', attribute='…', newValue='…'}`. */
  function ToString(e: AttributeEdit): (r: string)
    ensures |r| == |e.xpath| + |e.attribute| + |e.newValue| + 50
    ensures r[..21] == "AttributeEdit{xpath='" && r[|r| - 2..] == "'}"
  {
    "AttributeEdit{" + "xpath='" + e.xpath + "'" + ", attribute='" + e.attribute + "'"
      + ", newValue='" + e.newValue + "'" + "}"
  }

  /** Where the three fields sit in the rendering. */
  lemma ToStringLayout(e: AttributeEdit)
    ensures var r, n, m := ToString(e), |e.xpath|, |e.attribute|;
      |r| == n + m + |e.newValue| + 50 &&
      r[21..21 + n] == e.xpath && r[21 + n] == '\'' &&
      r[21 + n + 14..21 + n + 14 + m] == e.attribute && r[21 + n + 14 + m] == '\'' &&
      r[21 + n + 14 + m + 13..|r| - 2] == e.newValue
  {
  }

  /** When the XPath and the attribute name hold no quote, the rendering
      determines all three fields, in their order. */
  lemma {:induction false} ToStringInjective(e1: AttributeEdit, e2: AttributeEdit)
    requires '\'' !in e1.xpath && '\'' !in e1.attribute
    requires '\'' !in e2.xpath && '\'' !in e2.attribute
    requires ToString(e1) == ToString(e2)
    ensures e1 == e2
  {
    var r := ToString(e1);
    ToStringLayout(e1);
    ToStringLayout(e2);
    var n1, n2 := |e1.xpath|, |e2.xpath|;
    assert forall k :: 0 <= k < n1 ==> r[21 + k] == e1.xpath[k];
    assert forall k :: 0 <= k < n2 ==> r[21 + k] == e2.xpath[k];
    assert n1 == n2;
    var m1, m2 := |e1.attribute|, |e2.attribute|;
    var b := 21 + n1 + 14;
    assert forall k :: 0 <= k < m1 ==> r[b + k] == e1.attribute[k];
    assert forall k :: 0 <= k < m2 ==> r[b + k] == e2.attribute[k];
    assert m1 == m2;
  }
}
