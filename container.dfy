/**
 * The opening-line test that the `:::folding` and `:::hidden` block rules
 * both write out: the line, after its indentation, starts with `:::`, and the
 * trimmed text after `:::` starts with the directive's name.
 */
module Container {
  import opened Text
  import opened Wrappers
  import opened Host

  const Marker: string := ":::"

  /**
   * The trimmed text after `:::` on an opening line for `tag`, or `None`.
   * The name is matched as a prefix, so `:::foldingX` opens a folding block.
   */
  function OpenerParams(l: Line, tag: string): (r: Option<string>)
    ensures r.Some? ==> StartsWith(r.value, tag)
  {
    var t := l.Text();
    if |t| < |Marker| || t[..|Marker|] != Marker then None
    else
      var params := Trim(t[|Marker|..]);
      if StartsWith(params, tag) then Some(params) else None
  }

  /** The name test is a prefix test: any word that starts with the name opens the block. */
  lemma OpenerAcceptsLongerName(tag: string, rest: string, indent: nat)
    requires tag != "" && SpaceFree(tag) && SpaceFree(rest)
    ensures OpenerParams(Line(seq(indent, _ => ' ') + Marker + tag + rest, indent), tag) == Some(tag + rest)
  {
    var pad := seq(indent, _ => ' ');
    var w := tag + rest;
    var t := Marker + w;
    assert pad + Marker + tag + rest == pad + t;
    var l := Line(pad + t, indent);
    assert l.Text() == t;
    assert t[..|Marker|] == Marker;
    assert t[|Marker|..] == w;
    assert !IsSpace(w[0]) && !IsSpace(w[|w| - 1]);
    TrimUnpadded(w);
    assert StartsWith(w, tag);
  }
}
