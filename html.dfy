/**
 * HTML start tags as the plugins write them: `<name a="v" b="w">`, every
 * attribute preceded by one space and its value in double quotes, with no
 * escaping. Reading a rendered tag back (`ReadStartTag`) recovers the tag,
 * which is what lets the plugin modules state their output attribute by attribute.
 */
module Html {
  import opened Text
  import opened Wrappers

  datatype Attr = Attr(name: string, value: string)

  datatype StartTag = StartTag(name: string, attrs: seq<Attr>)

  /** ` name="value"` for every attribute, in order. */
  function RenderAttrs(attrs: seq<Attr>): string {
    if attrs == [] then ""
    else " " + attrs[0].name + "=\"" + attrs[0].value + "\"" + RenderAttrs(attrs[1..])
  }

  function RenderStartTag(t: StartTag): string {
    "<" + t.name + RenderAttrs(t.attrs) + ">"
  }

  /** The value of the first attribute called `name`, if any. */
  function AttrValue(attrs: seq<Attr>, name: string): Option<string> {
    if attrs == [] then None
    else if attrs[0].name == name then Some(attrs[0].value)
    else AttrValue(attrs[1..], name)
  }

  /** The value of the first attribute with the name is the value found. */
  lemma {:induction false} AttrValueAt(attrs: seq<Attr>, name: string, k: nat)
    requires k < |attrs| && attrs[k].name == name
    requires forall i :: 0 <= i < k ==> attrs[i].name != name
    ensures AttrValue(attrs, name) == Some(attrs[k].value)
  {
    if k > 0 {
      AttrValueAt(attrs[1..], name, k - 1);
    }
  }

  /** No attribute with the name: no value. */
  lemma {:induction false} AttrValueAbsent(attrs: seq<Attr>, name: string)
    requires forall i :: 0 <= i < |attrs| ==> attrs[i].name != name
    ensures AttrValue(attrs, name) == None
  {
    if attrs != [] {
      AttrValueAbsent(attrs[1..], name);
    }
  }

  /** Looking a name up in two attribute lists in a row: the first list wins. */
  lemma {:induction false} AttrValueAppend(a: seq<Attr>, b: seq<Attr>, name: string)
    ensures AttrValue(a + b, name) == if AttrValue(a, name).Some? then AttrValue(a, name) else AttrValue(b, name)
  {
    if a == [] {
      assert a + b == b;
    } else {
      assert (a + b)[1..] == a[1..] + b;
      AttrValueAppend(a[1..], b, name);
    }
  }

  /** The first value of `name` in `a + b + c`. */
  lemma AttrValue3(a: seq<Attr>, b: seq<Attr>, c: seq<Attr>, name: string)
    ensures AttrValue(a + b + c, name) ==
      if AttrValue(a, name).Some? then AttrValue(a, name)
      else if AttrValue(b, name).Some? then AttrValue(b, name)
      else AttrValue(c, name)
  {
    AttrValueAppend(a + b, c, name);
    AttrValueAppend(a, b, name);
  }

  /** An attribute that renders unambiguously: a name free of ` `, `=`, `"`, `>`, and a value free of `"`. */
  predicate WellFormedAttr(a: Attr) {
    a.name != "" && ' ' !in a.name && '=' !in a.name && '"' !in a.name && '>' !in a.name
    && '"' !in a.value
  }

  predicate WellFormedAttrs(attrs: seq<Attr>) {
    forall i :: 0 <= i < |attrs| ==> WellFormedAttr(attrs[i])
  }

  predicate WellFormedTag(t: StartTag) {
    t.name != "" && ' ' !in t.name && '>' !in t.name && WellFormedAttrs(t.attrs)
  }

  lemma WellFormedAttrsAppend(a: seq<Attr>, b: seq<Attr>)
    requires WellFormedAttrs(a) && WellFormedAttrs(b)
    ensures WellFormedAttrs(a + b)
  {
    forall i | 0 <= i < |a + b| ensures WellFormedAttr((a + b)[i]) {
      if i >= |a| { assert (a + b)[i] == b[i - |a|]; }
    }
  }

  /** Read attributes up to the closing `>`, returning them and the text after `>`. */
  function ReadAttrs(s: string): Option<(seq<Attr>, string)>
    decreases |s|
  {
    if s == [] then None
    else if s[0] == '>' then Some(([], s[1..]))
    else if s[0] != ' ' then None
    else
      var e := FindChar(s, '=', 1);
      if e + 1 >= |s| || s[e + 1] != '"' then None
      else
        var q := FindChar(s, '"', e + 2);
        if q >= |s| then None
        else
          match ReadAttrs(s[q + 1..])
          case None => None
          case Some((rest, after)) => Some(([Attr(s[1..e], s[e + 2..q])] + rest, after))
  }

  /** Read one start tag at the beginning of `s`, returning it and the text after it. */
  function ReadStartTag(s: string): Option<(StartTag, string)> {
    if s == [] || s[0] != '<' then None
    else
      var k := FindEither(s, ' ', '>', 1);
      if k >= |s| then None
      else
        match ReadAttrs(s[k..])
        case None => None
        case Some((attrs, after)) => Some((StartTag(s[1..k], attrs), after))
  }

  /** Rendered attributes followed by `>` read back as the same attributes. */
  lemma {:induction false} ReadRenderAttrs(attrs: seq<Attr>, rest: string)
    requires WellFormedAttrs(attrs)
    ensures ReadAttrs(RenderAttrs(attrs) + ">" + rest) == Some((attrs, rest))
  {
    if attrs == [] {
      assert RenderAttrs(attrs) + ">" + rest == ">" + rest;
    } else {
      var a := attrs[0];
      var tail := RenderAttrs(attrs[1..]) + ">" + rest;
      RenderAttrsCons(attrs, rest);
      ReadAttrsStep(a, tail);
      ReadRenderAttrs(attrs[1..], rest);
      assert [a] + attrs[1..] == attrs;
    }
  }

  lemma RenderAttrsCons(attrs: seq<Attr>, rest: string)
    requires attrs != []
    ensures RenderAttrs(attrs) + ">" + rest
      == " " + attrs[0].name + "=\"" + attrs[0].value + "\"" + (RenderAttrs(attrs[1..]) + ">" + rest)
  {
  }

  /** Reading one rendered attribute, then the rest. */
  lemma ReadAttrsStep(a: Attr, tail: string)
    requires WellFormedAttr(a)
    ensures ReadAttrs(" " + a.name + "=\"" + a.value + "\"" + tail) ==
      match ReadAttrs(tail)
      case None => None
      case Some((r, after)) => Some(([a] + r, after))
  {
    var s := " " + a.name + "=\"" + a.value + "\"" + tail;
    var e := 1 + |a.name|;
    var q := e + 2 + |a.value|;
    assert s[1..e] == a.name;
    assert s[e] == '=' && s[e + 1] == '"';
    forall j | 1 <= j < e ensures s[j] != '=' {
      assert s[j] == a.name[j - 1];
    }
    FindCharAt(s, '=', 1, e);
    assert s[e + 2..q] == a.value;
    assert s[q] == '"';
    forall j | e + 2 <= j < q ensures s[j] != '"' {
      assert s[j] == a.value[j - e - 2];
    }
    FindCharAt(s, '"', e + 2, q);
    assert s[q + 1..] == tail;
    assert s[0] == ' ';
  }

  /** A start tag rendered after some leading text reads back from the end of that text. */
  lemma ReadTagAfter(lead: string, t: StartTag, rest: string)
    requires WellFormedTag(t)
    ensures var h := lead + RenderStartTag(t) + rest;
      StartsWith(h, lead) && ReadStartTag(h[|lead|..]) == Some((t, rest))
  {
    var h := lead + RenderStartTag(t) + rest;
    assert h[..|lead|] == lead;
    assert h[|lead|..] == RenderStartTag(t) + rest;
    ReadRenderStartTag(t, rest);
  }

  /** A rendered start tag reads back as itself: rendering loses nothing. */
  lemma ReadRenderStartTag(t: StartTag, rest: string)
    requires WellFormedTag(t)
    ensures ReadStartTag(RenderStartTag(t) + rest) == Some((t, rest))
  {
    var s := RenderStartTag(t) + rest;
    var tail := RenderAttrs(t.attrs) + ">" + rest;
    assert s == "<" + t.name + tail;
    var k := 1 + |t.name|;
    assert s[1..k] == t.name;
    assert s[k..] == tail;
    assert tail[0] == ' ' || tail[0] == '>';
    FindEitherAt(s, ' ', '>', 1, k);
    ReadRenderAttrs(t.attrs, rest);
  }
}
