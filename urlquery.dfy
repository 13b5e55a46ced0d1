/** Package `urlquerybuilder`: a list of key/value properties serialised as a URL query
    string. Keys and values are joined as they are; nothing is escaped. */
module UrlQuery {
  import opened GoStrings

  /** `UrlQueryProperty`. */
  datatype UrlQueryProperty = UrlQueryProperty(Key: string, Value: string) {
    /** `UrlQueryProperty.String`: the key, `=`, the value. */
    function String(): (s: string)
      ensures |s| == |Key| + 1 + |Value|
      ensures s[..|Key|] == Key && s[|Key|] == '=' && s[|Key| + 1..] == Value
    {
      Key + "=" + Value
    }
  }

  /** The position of the first `c` in `s`, or `|s|` when there is none. */
  function IndexOf(s: string, c: char): (i: nat)
    ensures i <= |s| && c !in s[..i] && (i < |s| ==> s[i] == c)
  {
    if s == [] || s[0] == c then 0
    else
      var i := IndexOf(s[1..], c);
      assert s[..i + 1] == [s[0]] + s[1..][..i];
      i + 1
  }

  /** Reads a property back from its string, splitting at the first `=`. */
  function ParseProperty(s: string): UrlQueryProperty {
    var i := IndexOf(s, '=');
    if i < |s| then UrlQueryProperty(s[..i], s[i + 1..]) else UrlQueryProperty(s, "")
  }

  /** A property whose key holds no `=` is recovered from its string. */
  lemma PropertyRoundTrip(p: UrlQueryProperty)
    requires '=' !in p.Key
    ensures ParseProperty(p.String()) == p
  {
    var s := p.String();
    var i := IndexOf(s, '=');
    assert s[..|p.Key|] == p.Key;
    assert i == |p.Key|;
  }

  /** The strings of the properties, in order. */
  function PropertyStrings(props: seq<UrlQueryProperty>): (xs: seq<string>)
    ensures |xs| == |props|
    ensures forall i :: 0 <= i < |props| ==> xs[i] == props[i].String()
  {
    if props == [] then [] else [props[0].String()] + PropertyStrings(props[1..])
  }

  /** The query string of a list of properties: their strings joined with `&`. */
  function QueryString(props: seq<UrlQueryProperty>): (s: string)
    ensures props == [] ==> s == ""
    ensures |props| == 1 ==> s == props[0].String()
  {
    Join(PropertyStrings(props), "&")
  }

  /** Appending properties to a non-empty builder appends `&` and their query string. */
  lemma QueryStringAppend(b: seq<UrlQueryProperty>, ps: seq<UrlQueryProperty>)
    requires b != [] && ps != []
    ensures QueryString(b + ps) == QueryString(b) + "&" + QueryString(ps)
  {
    assert PropertyStrings(b + ps) == PropertyStrings(b) + PropertyStrings(ps);
    JoinAppend(PropertyStrings(b), PropertyStrings(ps), "&");
  }

  /** `UrlQueryBuilder`, the slice of properties that `Append` extends through its pointer. */
  class UrlQueryBuilder {
    var props: seq<UrlQueryProperty>

    /** The zero value: no properties. */
    constructor ()
      ensures props == []
    {
      props := [];
    }

    /** `Append`: the old properties followed by `moreProps`, in order. */
    method Append(moreProps: seq<UrlQueryProperty>)
      modifies this
      ensures props == old(props) + moreProps
      ensures |props| == |old(props)| + |moreProps| && props[..|old(props)|] == old(props)
    {
      props := props + moreProps;
    }

    /** `UrlQueryBuilder.String`: the strings of the properties joined with `&`. */
    method String() returns (s: string)
      ensures s == QueryString(props)
    {
      var xs: seq<string> := [];
      for i := 0 to |props|
        invariant |xs| == i
        invariant forall j :: 0 <= j < i ==> xs[j] == props[j].String()
      {
        xs := xs + [props[i].String()];
      }
      assert xs == PropertyStrings(props);
      s := Join(xs, "&");
    }
  }
}
