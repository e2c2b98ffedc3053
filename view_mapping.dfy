/** The two view-definition matchers of data_loader/processing.py.

    `parse_view_mapping_xml` finds every
      a.XMLRECORD.value('data(/row/cN)[1]', 'nvarchar(max)') "ALIAS"
    and `parse_view_mapping_nonxml` every
      dbo.tafjfield(a.RECID, '*', 'N', '-2147483648') "ALIAS"
      dbo.extractValueJS(a.XMLRECORD, N, M) "ALIAS"
    in a SQL view definition, ignoring letter case, left to right and without
    overlaps.

    Each regular expression is modelled as a matcher over a fixed grammar.
    In both patterns every repetition (`\s*`, `\d+`, `[^"]+`) is followed by
    a literal character the repeated class cannot match, so the greedy
    reading below is the only way the expression can match: the matcher
    needs no backtracking. */
module ViewMapping {
  import opened Base
  import opened Text
  import opened Matching

  /** One column of an XML-mode mapping: the `cN` element and its output alias. */
  datatype XmlEntry = XmlEntry(tag: string, alias: string)

  /** Which of the two call shapes produced a delimited-mode entry. */
  datatype Extractor = TafjField | ExtractValueJs

  /** One column of a delimited-mode mapping: the 1-based field position,
      the output alias, and the field list it reads from. */
  datatype DelimEntry = DelimEntry(position: nat, alias: string, kind: Extractor)

  /** What `"([^"]+)"` captures. */
  predicate ValidAlias(a: string) {
    a != [] && '"' !in a
  }

  /** What `(c\d+)` captures under `re.IGNORECASE`: `c` or `C`, then digits. */
  predicate ValidTag(t: string) {
    |t| >= 2 && FoldEq(t[0], 'c') && AllDigits(t[1..])
  }

  // ---------------------------------------------------------------------
  // Building blocks. Each one looks at the start of the remaining text and
  // returns what is left after it.

  /** A literal, compared ignoring ASCII case. */
  function Literal(lit: string, s: string): (r: Option<string>)
    ensures r.Some? <==> FoldPrefix(lit, s)
    ensures r.Some? ==> r.value == s[|lit|..]
  {
    if FoldPrefix(lit, s) then Some(s[|lit|..]) else None
  }

  /** A literal followed by `\s*`. */
  function Token(lit: string, s: string): (r: Option<string>)
    ensures r.Some? <==> FoldPrefix(lit, s)
    ensures r.Some? ==> |r.value| <= |s| - |lit|
  {
    var after :- Literal(lit, s);
    Some(SkipWhile(after, IsSpace))
  }

  /** `\d+`: the digits at the start and the text after them. */
  function Digits(s: string): (r: Option<(string, string)>)
    ensures r.Some? ==> r.value.0 != [] && AllDigits(r.value.0) && |r.value.1| < |s|
  {
    var rest := SkipWhile(s, IsDigit);
    if |rest| == |s| then None else Some((s[..|s| - |rest|], rest))
  }

  predicate NotQuote(c: char) {
    c != '"'
  }

  /** `"([^"]+)"`: the alias between two double quotes and the text after them. */
  function QuotedAlias(s: string): (r: Option<(string, string)>)
    ensures r.Some? ==> ValidAlias(r.value.0) && |r.value.1| < |s|
  {
    if s == [] || s[0] != '"' then None
    else
      var body := s[1..];
      var after := SkipWhile(body, NotQuote);
      var alias := body[..|body| - |after|];
      if alias == [] || after == [] then None
      else
        assert forall k :: 0 <= k < |alias| ==> NotQuote(alias[k]);
        Some((alias, after[1..]))
  }

  // ---------------------------------------------------------------------
  // XML mode (processing.py:20)

  const XmlOpen: string := "a.XMLRECORD.value("
  const DataPath: string := "'data(/row/"
  const TagClose: string := ")[1]'"
  const Comma: string := ","
  const NvarcharMax: string := "'nvarchar(max)'"
  const CloseParen: string := ")"

  /** `a.XMLRECORD.value( 'data(/row/` up to the tag. */
  function XmlHead(s: string): (r: Option<string>)
    ensures r.Some? ==> |r.value| < |s|
  {
    var s1 :- Token(XmlOpen, s);
    Literal(DataPath, s1)
  }

  /** `)[1]' , 'nvarchar(max)' )` from the end of the tag up to the alias. */
  function XmlTail(s: string): (r: Option<string>)
    ensures r.Some? ==> |r.value| < |s|
  {
    var s1 :- Token(TagClose, s);
    var s2 :- Token(Comma, s1);
    var s3 :- Token(NvarcharMax, s2);
    Token(CloseParen, s3)
  }

  /** `(c\d+)`: the tag at the start of `s` and the text after it. */
  function TagAt(s: string): (r: Option<(string, string)>)
    ensures r.Some? ==> ValidTag(r.value.0) && |r.value.1| < |s|
  {
    if s == [] || !FoldEq(s[0], 'c') then None
    else
      var d :- Digits(s[1..]);
      var tag := [s[0]] + d.0;
      assert tag[1..] == d.0;
      Some((tag, d.1))
  }

  /** `)[1]' , 'nvarchar(max)' ) "ALIAS"` after the tag: the alias and the
      text after the closing quote. */
  function XmlRest(u: string): (r: Option<(string, string)>)
    ensures r.Some? ==> ValidAlias(r.value.0) && |r.value.1| < |u|
  {
    var s2 :- XmlTail(u);
    QuotedAlias(s2)
  }

  /** One match of the XML-mode pattern at the start of `s`. */
  function MatchXmlCall(s: string): (h: Option<Hit<XmlEntry>>)
    ensures h.Some? ==> 0 < h.value.len <= |s|
    ensures h.Some? ==> ValidTag(h.value.value.tag) && ValidAlias(h.value.value.alias)
  {
    var s1 :- XmlHead(s);
    var t :- TagAt(s1);
    var q :- XmlRest(t.1);
    Some(Hit(XmlEntry(t.0, q.0), |s| - |q.1|))
  }

  predicate WellFormedXmlEntry(e: XmlEntry) {
    ValidTag(e.tag) && ValidAlias(e.alias)
  }

  /** `parse_view_mapping_xml`: every `(tag, alias)` of the view definition,
      in text order. */
  function ParseViewMappingXml(viewDef: string): (r: seq<XmlEntry>)
    ensures forall k :: 0 <= k < |r| ==> WellFormedXmlEntry(r[k])
  {
    assert forall t :: MatchXmlCall(t).Some? ==> WellFormedXmlEntry(MatchXmlCall(t).value.value);
    ScanValuesHold(MatchXmlCall, viewDef, 0, WellFormedXmlEntry);
    Values(Scan(MatchXmlCall, viewDef, 0))
  }

  // ---------------------------------------------------------------------
  // Delimited mode (processing.py:34-55)

  /** The named groups of the delimited-mode pattern after one match:
      the alternative that did not match leaves its groups unset. */
  datatype DelimGroups = DelimGroups(
    tafPos: Option<string>, tafAlias: Option<string>,
    extPos: Option<string>, extAlias: Option<string>)

  predicate DigitGroup(g: Option<string>) {
    g.Some? && g.value != [] && AllDigits(g.value)
  }

  predicate AliasGroup(g: Option<string>) {
    g.Some? && ValidAlias(g.value)
  }

  /** Exactly one alternative matched, with a digit position and a valid alias. */
  predicate WellFormedGroups(g: DelimGroups) {
    (DigitGroup(g.tafPos) && AliasGroup(g.tafAlias) && g.extPos.None? && g.extAlias.None?)
    || (g.tafPos.None? && g.tafAlias.None? && DigitGroup(g.extPos) && AliasGroup(g.extAlias))
  }

  const TafOpen: string := "dbo.tafjfield("
  const RecidArg: string := "a.RECID"
  const TafDelimArg: string := "'*'"
  const Quote: string := "'"
  const TafSentinelArg: string := "'-2147483648'"
  const ExtOpen: string := "dbo.extractValueJS("
  const XmlRecordArg: string := "a.XMLRECORD"

  /** `dbo.tafjfield( a.RECID , '*' , '` up to the position digits. */
  function TafHead(s: string): (r: Option<string>)
    ensures r.Some? ==> |r.value| < |s|
  {
    var s1 :- Token(TafOpen, s);
    var s2 :- Token(RecidArg, s1);
    var s3 :- Token(Comma, s2);
    var s4 :- Token(TafDelimArg, s3);
    var s5 :- Token(Comma, s4);
    Literal(Quote, s5)
  }

  /** `' , '-2147483648' )` from the end of the position digits up to the alias. */
  function TafTail(s: string): (r: Option<string>)
    ensures r.Some? ==> |r.value| < |s|
  {
    var s1 :- Token(Quote, s);
    var s2 :- Token(Comma, s1);
    var s3 :- Token(TafSentinelArg, s2);
    Token(CloseParen, s3)
  }

  /** `' , '-2147483648' ) "ALIAS"` after the position digits: the alias
      and the text after the closing quote. */
  function TafRest(y: string): (r: Option<(string, string)>)
    ensures r.Some? ==> ValidAlias(r.value.0) && |r.value.1| < |y|
  {
    var s2 :- TafTail(y);
    QuotedAlias(s2)
  }

  /** The `tafjfield` alternative at the start of `s`. */
  function MatchTafCall(s: string): (h: Option<Hit<DelimGroups>>)
    ensures h.Some? ==> 0 < h.value.len <= |s| && WellFormedGroups(h.value.value) && h.value.value.tafAlias.Some?
  {
    var s1 :- TafHead(s);
    var d :- Digits(s1);
    var q :- TafRest(d.1);
    Some(Hit(DelimGroups(Some(d.0), Some(q.0), None, None), |s| - |q.1|))
  }

  /** `-?`: drops one leading minus sign, if there is one. */
  function OptionalMinus(s: string): (r: string)
    ensures r == s || (s != [] && s[0] == '-' && r == s[1..])
  {
    if s != [] && s[0] == '-' then s[1..] else s
  }

  /** `dbo.extractValueJS( a.XMLRECORD ,` up to the position digits. */
  function ExtHead(s: string): (r: Option<string>)
    ensures r.Some? ==> |r.value| < |s|
  {
    var s1 :- Token(ExtOpen, s);
    var s2 :- Token(XmlRecordArg, s1);
    Token(Comma, s2)
  }

  /** ` , -` between the position digits and the digits of the third argument. */
  function ExtMiddle(s: string): (r: Option<string>)
    ensures r.Some? ==> |r.value| < |s|
  {
    var s1 :- Token(Comma, SkipWhile(s, IsSpace));
    Some(OptionalMinus(s1))
  }

  /** ` )` after the digits of the third argument, up to the alias. */
  function ExtClose(s: string): (r: Option<string>)
    ensures r.Some? ==> |r.value| < |s|
  {
    Token(CloseParen, SkipWhile(s, IsSpace))
  }

  /** ` , -?\d+ ) "ALIAS"` after the position digits: the alias and the
      text after the closing quote. */
  function ExtRest(y: string): (r: Option<(string, string)>)
    ensures r.Some? ==> ValidAlias(r.value.0) && |r.value.1| < |y|
  {
    var s2 :- ExtMiddle(y);
    var n :- Digits(s2);
    var s3 :- ExtClose(n.1);
    QuotedAlias(s3)
  }

  /** The `extractValueJS` alternative at the start of `s`. */
  function MatchExtCall(s: string): (h: Option<Hit<DelimGroups>>)
    ensures h.Some? ==> 0 < h.value.len <= |s| && WellFormedGroups(h.value.value) && h.value.value.extAlias.Some?
  {
    var s1 :- ExtHead(s);
    var d :- Digits(s1);
    var q :- ExtRest(d.1);
    var g := DelimGroups(None, None, Some(d.0), Some(q.0));
    assert DigitGroup(g.extPos) && AliasGroup(g.extAlias);
    Some(Hit(g, |s| - |q.1|))
  }

  /** One match of the delimited-mode pattern: the first alternative is
      tried first. */
  function MatchDelimitedCall(s: string): (h: Option<Hit<DelimGroups>>)
    ensures h.Some? ==> 0 < h.value.len <= |s| && WellFormedGroups(h.value.value)
  {
    var taf := MatchTafCall(s);
    if taf.Some? then taf else MatchExtCall(s)
  }

  /** What the loop body of `parse_view_mapping_nonxml` appends for one match. */
  function EntryOf(g: DelimGroups): (r: seq<DelimEntry>)
    requires WellFormedGroups(g)
  {
    if Truthy(g.tafAlias) then [DelimEntry(DecimalValue(g.tafPos.value), g.tafAlias.value, TafjField)]
    else if Truthy(g.extAlias) then [DelimEntry(DecimalValue(g.extPos.value), g.extAlias.value, ExtractValueJs)]
    else []
  }

  /** What the whole loop appends, in order. */
  function EntriesOf(gs: seq<DelimGroups>): (r: seq<DelimEntry>)
    requires forall k :: 0 <= k < |gs| ==> WellFormedGroups(gs[k])
    decreases |gs|
  {
    if gs == [] then [] else EntriesOf(gs[..|gs| - 1]) + EntryOf(gs[|gs| - 1])
  }

  /** The groups of every match of the delimited-mode pattern, in text order. */
  function DelimitedMatches(viewDef: string): (r: seq<DelimGroups>)
    ensures forall k :: 0 <= k < |r| ==> WellFormedGroups(r[k])
  {
    assert forall t :: MatchDelimitedCall(t).Some? ==> WellFormedGroups(MatchDelimitedCall(t).value.value);
    ScanValuesHold(MatchDelimitedCall, viewDef, 0, WellFormedGroups);
    Values(Scan(MatchDelimitedCall, viewDef, 0))
  }

  /** The mapping `parse_view_mapping_nonxml` builds for a view definition. */
  function DelimitedMapping(viewDef: string): (r: seq<DelimEntry>) {
    EntriesOf(DelimitedMatches(viewDef))
  }

  /** `parse_view_mapping_nonxml`: the `finditer` loop that appends one
      `(position, alias, kind)` per match. */
  method ParseViewMappingNonXml(viewDef: string) returns (mapping: seq<DelimEntry>)
    ensures mapping == DelimitedMapping(viewDef)
  {
    var matches := DelimitedMatches(viewDef);
    mapping := [];
    for k := 0 to |matches|
      invariant mapping == EntriesOf(matches[..k])
    {
      var g := matches[k];
      assert matches[..k + 1][..k] == matches[..k];
      if Truthy(g.tafAlias) {
        var pos := DecimalValue(g.tafPos.value);
        mapping := mapping + [DelimEntry(pos, g.tafAlias.value, TafjField)];
      } else if Truthy(g.extAlias) {
        var pos := DecimalValue(g.extPos.value);
        mapping := mapping + [DelimEntry(pos, g.extAlias.value, ExtractValueJs)];
      }
    }
    assert matches[..|matches|] == matches;
  }

  // ---------------------------------------------------------------------
  // An empty mapping (processing.py:22-24, 53-55): both parsers return an
  // empty list, rather than failing, exactly when the pattern matches
  // nowhere in the view definition.

  lemma ParseViewMappingXmlEmpty(viewDef: string)
    ensures ParseViewMappingXml(viewDef) == [] <==> forall p :: 0 <= p < |viewDef| ==> MatchXmlCall(viewDef[p..]).None?
  {
    ScanEmpty(MatchXmlCall, viewDef);
    forall p | 0 <= p < |viewDef|
      ensures Advances(MatchXmlCall(viewDef[p..]), |viewDef| - p) <==> MatchXmlCall(viewDef[p..]).Some?
    {
    }
  }

  /** Every match contributes exactly one entry. */
  lemma {:induction false} EntriesOfLength(gs: seq<DelimGroups>)
    requires forall k :: 0 <= k < |gs| ==> WellFormedGroups(gs[k])
    ensures |EntriesOf(gs)| == |gs|
    decreases |gs|
  {
    if gs != [] {
      EntriesOfLength(gs[..|gs| - 1]);
    }
  }

  lemma DelimitedMappingEmpty(viewDef: string)
    ensures DelimitedMapping(viewDef) == [] <==> forall p :: 0 <= p < |viewDef| ==> MatchDelimitedCall(viewDef[p..]).None?
  {
    EntriesOfLength(DelimitedMatches(viewDef));
    ScanEmpty(MatchDelimitedCall, viewDef);
    forall p | 0 <= p < |viewDef|
      ensures Advances(MatchDelimitedCall(viewDef[p..]), |viewDef| - p) <==> MatchDelimitedCall(viewDef[p..]).Some?
    {
    }
  }

  // ---------------------------------------------------------------------
  // Each building block recognises the text it describes.

  lemma LiteralThen(lit: string, rest: string)
    ensures Literal(lit, lit + rest) == Some(rest)
  {
    assert (lit + rest)[|lit|..] == rest;
  }

  /** A literal, then spaces, then text that does not start with a space. */
  lemma TokenThen(lit: string, ws: string, rest: string)
    requires forall k :: 0 <= k < |ws| ==> IsSpace(ws[k])
    requires rest == [] || !IsSpace(rest[0])
    ensures Token(lit, lit + (ws + rest)) == Some(rest)
  {
    LiteralThen(lit, ws + rest);
    SkipWhileConcat(ws, rest, IsSpace);
  }

  lemma DigitsThen(ds: string, rest: string)
    requires ds != [] && AllDigits(ds)
    requires rest == [] || !IsDigit(rest[0])
    ensures Digits(ds + rest) == Some((ds, rest))
  {
    SkipWhileConcat(ds, rest, IsDigit);
    assert (ds + rest)[..|ds|] == ds;
  }

  lemma QuotedThen(alias: string, rest: string)
    requires ValidAlias(alias)
    ensures QuotedAlias("\"" + (alias + ("\"" + rest))) == Some((alias, rest))
  {
    var tail := "\"" + rest;
    var s := "\"" + (alias + tail);
    AliasThen(alias, tail);
    assert s[1..] == alias + tail;
    assert s[1..][..|s| - 1 - |tail|] == alias;
    assert tail[1..] == rest;
  }

  lemma AliasThen(alias: string, tail: string)
    requires ValidAlias(alias) && tail != [] && tail[0] == '"'
    ensures SkipWhile(alias + tail, NotQuote) == tail
  {
    assert forall k :: 0 <= k < |alias| ==> NotQuote(alias[k]);
    SkipWhileConcat(alias, tail, NotQuote);
  }

  /** A text that does not start like `lit` is not matched by it. */
  lemma LiteralMismatch(lit: string, s: string, k: nat)
    requires k < |lit| && k < |s| && !FoldEq(s[k], lit[k])
    ensures Literal(lit, s) == None && Token(lit, s) == None
  {
  }

  // ---------------------------------------------------------------------
  // Renderings: the text of one call, in the shape the patterns describe.

  /** The text of one XML-mode call followed by `rest`. */
  function XmlCallText(e: XmlEntry, rest: string): (r: string) {
    XmlOpen + (DataPath + (e.tag + (TagClose + (Comma + (" " + (NvarcharMax + (CloseParen
      + (" " + ("\"" + (e.alias + ("\"" + rest)))))))))))
  }

  function RenderXml(e: XmlEntry): (r: string) {
    XmlCallText(e, [])
  }

  lemma XmlCallTextAppend(e: XmlEntry, rest: string)
    ensures RenderXml(e) + rest == XmlCallText(e, rest)
  {
  }

  /** The XML-mode matcher recognises the rendering of a well-formed entry,
      whatever follows it, and captures exactly that entry. */
  lemma MatchXmlCallRendered(e: XmlEntry, rest: string)
    requires WellFormedXmlEntry(e)
    ensures MatchXmlCall(RenderXml(e) + rest) == Some(Hit(e, |RenderXml(e)|))
  {
    XmlCallTextAppend(e, rest);
    MatchXmlCallText(e, rest);
    SomeHit(MatchXmlCall(RenderXml(e) + rest), e, |RenderXml(e)|);
  }

  lemma SomeHit<T>(h: Option<Hit<T>>, v: T, n: nat)
    requires h.Some? && h.value.value == v && h.value.len == n
    ensures h == Some(Hit(v, n))
  {
  }

  lemma MatchXmlCallText(e: XmlEntry, rest: string)
    requires WellFormedXmlEntry(e)
    ensures MatchXmlCall(XmlCallText(e, rest)).Some?
    ensures MatchXmlCall(XmlCallText(e, rest)).value.value == e
    ensures MatchXmlCall(XmlCallText(e, rest)).value.len == |XmlCallText(e, rest)| - |rest|
  {
    var s4 := TagClose + (Comma + (" " + (NvarcharMax + (CloseParen + (" " + ("\"" + (e.alias + ("\"" + rest))))))));
    var s1 := e.tag + s4;
    XmlHeadRendered(s1);
    TagThen(e.tag, s4);
    XmlRestRendered(e.alias, rest);
    MatchXmlCallSteps(XmlCallText(e, rest), s1, e.tag, s4, e.alias, rest);
  }

  lemma XmlRestRendered(alias: string, rest: string)
    requires ValidAlias(alias)
    ensures XmlRest(TagClose + (Comma + (" " + (NvarcharMax + (CloseParen + (" " + ("\"" + (alias + ("\"" + rest))))))))) == Some((alias, rest))
  {
    var q := "\"" + (alias + ("\"" + rest));
    XmlTailRendered(q);
    QuotedThen(alias, rest);
  }

  lemma MatchXmlCallSteps(s: string, s1: string, tag: string, u: string, alias: string, rest: string)
    requires XmlHead(s) == Some(s1)
    requires TagAt(s1) == Some((tag, u))
    requires XmlRest(u) == Some((alias, rest))
    ensures MatchXmlCall(s).Some?
    ensures MatchXmlCall(s).value.value == XmlEntry(tag, alias)
    ensures MatchXmlCall(s).value.len == |s| - |rest|
  {
  }

  lemma TagThen(tag: string, rest: string)
    requires ValidTag(tag) && (rest == [] || !IsDigit(rest[0]))
    ensures TagAt(tag + rest) == Some((tag, rest))
  {
    var s := tag + rest;
    assert s[1..] == tag[1..] + rest;
    DigitsThen(tag[1..], rest);
    assert [s[0]] + tag[1..] == tag;
  }

  lemma XmlHeadRendered(s1: string)
    ensures XmlHead(XmlOpen + (DataPath + s1)) == Some(s1)
  {
    TokenThen(XmlOpen, [], DataPath + s1);
    assert XmlOpen + ([] + (DataPath + s1)) == XmlOpen + (DataPath + s1);
    LiteralThen(DataPath, s1);
  }

  lemma XmlTailRendered(q: string)
    requires q == [] || !IsSpace(q[0])
    ensures XmlTail(TagClose + (Comma + (" " + (NvarcharMax + (CloseParen + (" " + q)))))) == Some(q)
  {
    TailTokensThen(TagClose, Comma, NvarcharMax, CloseParen, q);
  }

  // ---------------------------------------------------------------------
  // A view definition made of renderings, with any separator between the
  // calls in which neither pattern can start.

  /** Text that may stand between two calls: commas, white space, line
      breaks and the like. It holds no `a` and no `d` in either case, and
      both patterns begin with one of those letters (`a.XMLRECORD`,
      `dbo.`). */
  predicate CallSeparator(sep: string) {
    forall k :: 0 <= k < |sep| ==> !FoldEq(sep[k], 'a') && !FoldEq(sep[k], 'd')
  }

  /** Neither pattern can start inside a separator between two calls. */
  lemma SeparatorNeverMatches(sep: string)
    requires CallSeparator(sep)
    ensures forall j, rest :: 0 <= j < |sep| ==> MatchXmlCall(sep[j..] + rest) == None
    ensures forall j, rest :: 0 <= j < |sep| ==> MatchDelimitedCall(sep[j..] + rest) == None
  {
    forall j, rest | 0 <= j < |sep|
      ensures MatchXmlCall(sep[j..] + rest) == None
      ensures MatchDelimitedCall(sep[j..] + rest) == None
    {
      var t := sep[j..] + rest;
      assert t[0] == sep[j];
      LiteralMismatch(XmlOpen, t, 0);
      LiteralMismatch(TafOpen, t, 0);
      LiteralMismatch(ExtOpen, t, 0);
    }
  }

  /** `parse_view_mapping_xml` returns the entries of a view definition
      in the order they are written, whatever their tags and whatever
      separates the calls, and each exactly as written. */
  lemma {:induction false} ParseViewMappingXmlRendered(sep: string, es: seq<XmlEntry>)
    requires CallSeparator(sep)
    requires forall k :: 0 <= k < |es| ==> WellFormedXmlEntry(es[k])
    ensures ParseViewMappingXml(RenderAll(RenderXml, sep, es)) == es
  {
    var id := (e: XmlEntry) => e;
    forall e, rest | e in es
      ensures MatchXmlCall(RenderXml(e) + rest) == Some(Hit(id(e), |RenderXml(e)|))
    {
      MatchXmlCallRendered(e, rest);
    }
    SeparatorNeverMatches(sep);
    ScanRenderAll(MatchXmlCall, RenderXml, id, sep, es);
  }

  // ---------------------------------------------------------------------
  // Delimited-mode renderings.

  /** A delimited-mode call as it is written in a view definition: the
      digits of its position argument, for `extractValueJS` the sign and
      the digits of its third argument, and the alias. */
  datatype DelimCall =
    | TafCall(pos: string, alias: string)
    | ExtCall(pos: string, negative: bool, third: string, alias: string)

  predicate DigitString(ds: string) {
    ds != [] && AllDigits(ds)
  }

  predicate ValidCall(c: DelimCall) {
    DigitString(c.pos) && ValidAlias(c.alias) && (c.ExtCall? ==> DigitString(c.third))
  }

  function MinusSign(negative: bool): (r: string) {
    if negative then "-" else ""
  }

  function TafCallText(pos: string, alias: string, rest: string): (r: string) {
    TafOpen + (RecidArg + (Comma + (" " + (TafDelimArg + (Comma + (" " + (Quote + (pos + (Quote
      + (Comma + (" " + (TafSentinelArg + (CloseParen + (" " + ("\"" + (alias + ("\""
      + rest)))))))))))))))))
  }

  function ExtCallText(pos: string, negative: bool, third: string, alias: string, rest: string): (r: string) {
    ExtOpen + (XmlRecordArg + (Comma + (" " + (pos + (Comma + (" " + (MinusSign(negative) + (third
      + (CloseParen + (" " + ("\"" + (alias + ("\"" + rest)))))))))))))
  }

  function CallText(c: DelimCall, rest: string): (r: string) {
    match c
    case TafCall(pos, alias) => TafCallText(pos, alias, rest)
    case ExtCall(pos, negative, third, alias) => ExtCallText(pos, negative, third, alias, rest)
  }

  function RenderDelim(c: DelimCall): (r: string) {
    CallText(c, [])
  }

  lemma CallTextAppend(c: DelimCall, rest: string)
    ensures RenderDelim(c) + rest == CallText(c, rest)
  {
    match c
    case TafCall(pos, alias) => TafCallTextAppend(pos, alias, rest);
    case ExtCall(pos, negative, third, alias) => ExtCallTextAppend(pos, negative, third, alias, rest);
  }

  lemma TafCallTextAppend(pos: string, alias: string, rest: string)
    ensures TafCallText(pos, alias, []) + rest == TafCallText(pos, alias, rest)
  {
  }

  lemma ExtCallTextAppend(pos: string, negative: bool, third: string, alias: string, rest: string)
    ensures ExtCallText(pos, negative, third, alias, []) + rest == ExtCallText(pos, negative, third, alias, rest)
  {
  }

  /** The groups the pattern captures on the rendering of a call. */
  function GroupsOfCall(c: DelimCall): (r: DelimGroups) {
    match c
    case TafCall(pos, alias) => DelimGroups(Some(pos), Some(alias), None, None)
    case ExtCall(pos, _, _, alias) => DelimGroups(None, None, Some(pos), Some(alias))
  }

  /** The mapping entry a call stands for: `int()` of its position digits. */
  function EntryOfCall(c: DelimCall): (r: DelimEntry)
    requires DigitString(c.pos)
  {
    match c
    case TafCall(pos, alias) => DelimEntry(DecimalValue(pos), alias, TafjField)
    case ExtCall(pos, _, _, alias) => DelimEntry(DecimalValue(pos), alias, ExtractValueJs)
  }

  lemma TafHeadRendered(x: string)
    ensures TafHead(TafOpen + (RecidArg + (Comma + (" " + (TafDelimArg + (Comma + (" " + (Quote + x)))))))) == Some(x)
  {
    var s5 := Comma + (" " + (Quote + x));
    var s4 := TafDelimArg + s5;
    var s3 := Comma + (" " + s4);
    var s2 := RecidArg + s3;
    TokenThen(TafOpen, [], s2);
    assert TafOpen + ([] + s2) == TafOpen + s2;
    TokenThen(RecidArg, [], s3);
    assert RecidArg + ([] + s3) == s2;
    TokenThen(Comma, " ", s4);
    TokenThen(TafDelimArg, [], s5);
    assert TafDelimArg + ([] + s5) == s4;
    TokenThen(Comma, " ", Quote + x);
    LiteralThen(Quote, x);
  }

  lemma TafTailRendered(q: string)
    requires q == [] || !IsSpace(q[0])
    ensures TafTail(Quote + (Comma + (" " + (TafSentinelArg + (CloseParen + (" " + q)))))) == Some(q)
  {
    TailTokensThen(Quote, Comma, TafSentinelArg, CloseParen, q);
  }

  /** Four tokens written as the tails of both call shapes lay them out. */
  lemma TailTokensThen(l1: string, l2: string, l3: string, l4: string, q: string)
    requires l2 != [] && !IsSpace(l2[0]) && l3 != [] && !IsSpace(l3[0]) && l4 != [] && !IsSpace(l4[0])
    requires q == [] || !IsSpace(q[0])
    ensures Token(l1, l1 + (l2 + (" " + (l3 + (l4 + (" " + q)))))) == Some(l2 + (" " + (l3 + (l4 + (" " + q)))))
    ensures Token(l2, l2 + (" " + (l3 + (l4 + (" " + q))))) == Some(l3 + (l4 + (" " + q)))
    ensures Token(l3, l3 + (l4 + (" " + q))) == Some(l4 + (" " + q))
    ensures Token(l4, l4 + (" " + q)) == Some(q)
  {
    TokenBare(l1, l2 + (" " + (l3 + (l4 + (" " + q)))));
    TokenSpaced(l2, l3 + (l4 + (" " + q)));
    TokenBare(l3, l4 + (" " + q));
    TokenSpaced(l4, q);
  }

  lemma TokenBare(lit: string, rest: string)
    requires rest == [] || !IsSpace(rest[0])
    ensures Token(lit, lit + rest) == Some(rest)
  {
    LiteralThen(lit, rest);
  }

  lemma TokenSpaced(lit: string, rest: string)
    requires rest == [] || !IsSpace(rest[0])
    ensures Token(lit, lit + (" " + rest)) == Some(rest)
  {
    assert IsSpace(" "[0]);
    TokenThen(lit, " ", rest);
  }

  lemma MatchTafCallText(pos: string, alias: string, rest: string)
    requires DigitString(pos) && ValidAlias(alias)
    ensures MatchTafCall(TafCallText(pos, alias, rest)).Some?
    ensures MatchTafCall(TafCallText(pos, alias, rest)).value.value == GroupsOfCall(TafCall(pos, alias))
    ensures MatchTafCall(TafCallText(pos, alias, rest)).value.len == |TafCallText(pos, alias, rest)| - |rest|
  {
    var q := "\"" + (alias + ("\"" + rest));
    var tail := Quote + (Comma + (" " + (TafSentinelArg + (CloseParen + (" " + q)))));
    TafHeadRendered(pos + tail);
    DigitsThen(pos, tail);
    TafTailRendered(q);
    QuotedThen(alias, rest);
  }

  lemma ExtHeadRendered(x: string)
    requires x == [] || !IsSpace(x[0])
    ensures ExtHead(ExtOpen + (XmlRecordArg + (Comma + (" " + x)))) == Some(x)
  {
    var s2 := Comma + (" " + x);
    var s1 := XmlRecordArg + s2;
    TokenThen(ExtOpen, [], s1);
    assert ExtOpen + ([] + s1) == ExtOpen + s1;
    TokenThen(XmlRecordArg, [], s2);
    assert XmlRecordArg + ([] + s2) == s1;
    TokenThen(Comma, " ", x);
  }

  /** ` , -?` reads past the comma and the sign of a written integer. */
  lemma ExtMiddleRendered(negative: bool, third: string, z: string)
    requires DigitString(third)
    ensures ExtMiddle(Comma + (" " + (MinusSign(negative) + (third + z)))) == Some(third + z)
  {
    var w := MinusSign(negative) + (third + z);
    var s := Comma + (" " + w);
    SkipWhileConcat([], s, IsSpace);
    assert [] + s == s;
    assert IsDigit(third[0]) && (third + z)[0] == third[0];
    if negative {
      assert w[0] == '-' && w[1..] == third + z;
    } else {
      assert w == third + z;
    }
    TokenThen(Comma, " ", w);
  }

  lemma ExtCloseRendered(q: string)
    requires q == [] || !IsSpace(q[0])
    ensures ExtClose(CloseParen + (" " + q)) == Some(q)
  {
    SkipWhileConcat([], CloseParen + (" " + q), IsSpace);
    assert [] + (CloseParen + (" " + q)) == CloseParen + (" " + q);
    TokenThen(CloseParen, " ", q);
  }

  lemma MatchExtCallText(pos: string, negative: bool, third: string, alias: string, rest: string)
    requires DigitString(pos) && DigitString(third) && ValidAlias(alias)
    ensures MatchExtCall(ExtCallText(pos, negative, third, alias, rest)).Some?
    ensures MatchExtCall(ExtCallText(pos, negative, third, alias, rest)).value.value == GroupsOfCall(ExtCall(pos, negative, third, alias))
    ensures MatchExtCall(ExtCallText(pos, negative, third, alias, rest)).value.len == |ExtCallText(pos, negative, third, alias, rest)| - |rest|
  {
    var z, q := ExtCallBack(third, alias, rest);
    var y := ExtCallFront(pos, negative, third, z);
    var s := ExtOpen + (XmlRecordArg + (Comma + (" " + (pos + y))));
    assert s == ExtCallText(pos, negative, third, alias, rest);
    ExtRestSteps(y, third + z, third, z, q, alias, rest);
    MatchExtCallSteps(s, pos + y, pos, y, alias, rest);
  }

  /** The stages of the `extractValueJS` alternative up to its third argument. */
  lemma ExtCallFront(pos: string, negative: bool, third: string, z: string) returns (y: string)
    requires DigitString(pos) && DigitString(third)
    ensures y == Comma + (" " + (MinusSign(negative) + (third + z)))
    ensures ExtHead(ExtOpen + (XmlRecordArg + (Comma + (" " + (pos + y))))) == Some(pos + y)
    ensures Digits(pos + y) == Some((pos, y))
    ensures ExtMiddle(y) == Some(third + z)
  {
    y := Comma + (" " + (MinusSign(negative) + (third + z)));
    ExtHeadRendered(pos + y);
    DigitsThen(pos, y);
    ExtMiddleRendered(negative, third, z);
  }

  /** The stages of the `extractValueJS` alternative from its third argument on. */
  lemma ExtCallBack(third: string, alias: string, rest: string) returns (z: string, q: string)
    requires DigitString(third) && ValidAlias(alias)
    ensures q == "\"" + (alias + ("\"" + rest)) && z == CloseParen + (" " + q)
    ensures Digits(third + z) == Some((third, z))
    ensures ExtClose(z) == Some(q)
    ensures QuotedAlias(q) == Some((alias, rest))
  {
    q := "\"" + (alias + ("\"" + rest));
    z := CloseParen + (" " + q);
    DigitsThen(third, z);
    ExtCloseRendered(q);
    QuotedThen(alias, rest);
  }

  lemma MatchTafCallSteps(s: string, s1: string, ds: string, y: string, alias: string, rest: string)
    requires TafHead(s) == Some(s1)
    requires Digits(s1) == Some((ds, y))
    requires TafRest(y) == Some((alias, rest))
    ensures MatchTafCall(s).Some?
    ensures MatchTafCall(s).value.value == DelimGroups(Some(ds), Some(alias), None, None)
    ensures MatchTafCall(s).value.len == |s| - |rest|
  {
  }

  lemma TafRestSteps(y: string, q: string, alias: string, rest: string)
    requires TafTail(y) == Some(q)
    requires QuotedAlias(q) == Some((alias, rest))
    ensures TafRest(y) == Some((alias, rest))
  {
  }

  lemma MatchExtCallSteps(s: string, s1: string, ds: string, y: string, alias: string, rest: string)
    requires ExtHead(s) == Some(s1)
    requires Digits(s1) == Some((ds, y))
    requires ExtRest(y) == Some((alias, rest))
    ensures MatchExtCall(s).Some?
    ensures MatchExtCall(s).value.value == DelimGroups(None, None, Some(ds), Some(alias))
    ensures MatchExtCall(s).value.len == |s| - |rest|
  {
  }

  lemma ExtRestSteps(y: string, s2: string, ns: string, z: string, q: string, alias: string, rest: string)
    requires ExtMiddle(y) == Some(s2)
    requires Digits(s2) == Some((ns, z))
    requires ExtClose(z) == Some(q)
    requires QuotedAlias(q) == Some((alias, rest))
    ensures ExtRest(y) == Some((alias, rest))
  {
  }

  /** The delimited-mode matcher recognises the rendering of either kind
      of call, whatever follows it: the `tafjfield` alternative is never
      confused with the `extractValueJS` one. */
  lemma MatchDelimitedCallRendered(c: DelimCall, rest: string)
    requires ValidCall(c)
    ensures MatchDelimitedCall(RenderDelim(c) + rest) == Some(Hit(GroupsOfCall(c), |RenderDelim(c)|))
  {
    if c.TafCall? {
      TafCallRendered(c, rest);
    } else {
      ExtCallRendered(c, rest);
    }
  }

  lemma TafCallRendered(c: DelimCall, rest: string)
    requires ValidCall(c) && c.TafCall?
    ensures MatchDelimitedCall(RenderDelim(c) + rest) == Some(Hit(GroupsOfCall(c), |RenderDelim(c)|))
  {
    CallTextAppend(c, rest);
    var s := RenderDelim(c) + rest;
    MatchTafCallText(c.pos, c.alias, rest);
    SomeHit(MatchDelimitedCall(s), GroupsOfCall(c), |RenderDelim(c)|);
  }

  lemma ExtCallRendered(c: DelimCall, rest: string)
    requires ValidCall(c) && c.ExtCall?
    ensures MatchDelimitedCall(RenderDelim(c) + rest) == Some(Hit(GroupsOfCall(c), |RenderDelim(c)|))
  {
    CallTextAppend(c, rest);
    var s := RenderDelim(c) + rest;
    LiteralMismatch(TafOpen, s, 4);
    MatchExtCallText(c.pos, c.negative, c.third, c.alias, rest);
    SomeHit(MatchDelimitedCall(s), GroupsOfCall(c), |RenderDelim(c)|);
  }

  /** What the loop appends for the matches of rendered calls is the list of
      entries those calls stand for. */
  lemma {:induction false} EntriesOfCalls(cs: seq<DelimCall>)
    requires forall k :: 0 <= k < |cs| ==> ValidCall(cs[k])
    ensures forall k :: 0 <= k < |cs| ==> WellFormedGroups(MapSeq(GroupsOfCall, cs)[k])
    ensures EntriesOf(MapSeq(GroupsOfCall, cs)) == CallEntries(cs)
    decreases |cs|
  {
    var gs := MapSeq(GroupsOfCall, cs);
    forall k | 0 <= k < |cs| ensures WellFormedGroups(gs[k]) {
      EntryOfGroupsOfCall(cs[k]);
    }
    if cs != [] {
      var n := |cs| - 1;
      var init := cs[..n];
      EntriesOfCalls(init);
      assert gs[..n] == MapSeq(GroupsOfCall, init);
      EntryOfGroupsOfCall(cs[n]);
      assert CallEntries(cs) == CallEntries(init) + [EntryOfCall(cs[n])];
    }
  }

  /** The groups of one call are well formed and stand for that call's entry. */
  lemma EntryOfGroupsOfCall(c: DelimCall)
    requires ValidCall(c)
    ensures WellFormedGroups(GroupsOfCall(c)) && EntryOf(GroupsOfCall(c)) == [EntryOfCall(c)]
  {
  }

  /** The entries a list of calls stands for, in order. */
  function CallEntries(cs: seq<DelimCall>): (r: seq<DelimEntry>)
    requires forall k :: 0 <= k < |cs| ==> ValidCall(cs[k])
  {
    seq(|cs|, k requires 0 <= k < |cs| && ValidCall(cs[k]) => EntryOfCall(cs[k]))
  }

  /** A view definition listing `cs`, with `sep` between two calls. */
  function RenderedView(sep: string, cs: seq<DelimCall>): (r: string) {
    RenderAll(RenderDelim, sep, cs)
  }

  /** `parse_view_mapping_nonxml` returns one entry per call of a view
      definition, in the order they are written even when the two kinds
      are interleaved; each entry carries the kind of its call and the
      decimal value of its position argument. The third argument of
      `extractValueJS` may be any optionally negative integer. */
  lemma ParseViewMappingNonXmlRendered(sep: string, cs: seq<DelimCall>)
    requires CallSeparator(sep)
    requires forall k :: 0 <= k < |cs| ==> ValidCall(cs[k])
    ensures DelimitedMapping(RenderedView(sep, cs)) == CallEntries(cs)
  {
    forall c, rest | c in cs
      ensures MatchDelimitedCall(RenderDelim(c) + rest) == Some(Hit(GroupsOfCall(c), |RenderDelim(c)|))
    {
      MatchDelimitedCallRendered(c, rest);
    }
    forall c | c in cs ensures RenderDelim(c) != [] {
      CallTextAppend(c, []);
      assert RenderDelim(c)[0] == 'd';
    }
    SeparatorNeverMatches(sep);
    ScanRenderAll(MatchDelimitedCall, RenderDelim, GroupsOfCall, sep, cs);
    EntriesOfCalls(cs);
  }

  // ---------------------------------------------------------------------
  // The `tafjfield` alternative insists on its delimiter and sentinel
  // arguments (processing.py:36).

  lemma LiteralSuffix(lit: string, s: string)
    requires Literal(lit, s).Some?
    ensures FoldPrefix(lit, s) && IsSuffix(Literal(lit, s).value, s) && |Literal(lit, s).value| == |s| - |lit|
  {
  }

  lemma TokenSuffix(lit: string, s: string)
    requires Token(lit, s).Some?
    ensures FoldPrefix(lit, s) && IsSuffix(Token(lit, s).value, s) && |Token(lit, s).value| <= |s| - |lit|
  {
    var a := Literal(lit, s).value;
    LiteralSuffix(lit, s);
    SuffixTrans(SkipWhile(a, IsSpace), a, s);
  }

  /** Where `TafHead` stops, the text from `i` on starts with `'*'`. */
  lemma TafHeadDelimiter(s: string) returns (i: nat)
    requires TafHead(s).Some?
    ensures IsSuffix(TafHead(s).value, s)
    ensures i + |TafDelimArg| <= |s| - |TafHead(s).value| && s[i..i + |TafDelimArg|] == TafDelimArg
  {
    ConstantsHaveNoLetters();
    i := FourthTokenAt(TafOpen, RecidArg, Comma, TafDelimArg, Comma, Quote, s);
  }

  /** In five tokens and a literal read one after the other, where the
      fourth token sits. */
  lemma FourthTokenAt(l1: string, l2: string, l3: string, l4: string, l5: string, q: string, s: string)
    returns (i: nat)
    requires NoLetters(l4)
    requires Token(l1, s).Some? && Token(l2, Token(l1, s).value).Some?
    requires Token(l3, Token(l2, Token(l1, s).value).value).Some?
    requires Token(l4, Token(l3, Token(l2, Token(l1, s).value).value).value).Some?
    requires Token(l5, Token(l4, Token(l3, Token(l2, Token(l1, s).value).value).value).value).Some?
    requires Literal(q, Token(l5, Token(l4, Token(l3, Token(l2, Token(l1, s).value).value).value).value).value).Some?
    ensures var h := Literal(q, Token(l5, Token(l4, Token(l3, Token(l2, Token(l1, s).value).value).value).value).value).value;
      IsSuffix(h, s) && i + |l4| <= |s| - |h| && s[i..i + |l4|] == l4
  {
    var a3 := Token(l3, Token(l2, Token(l1, s).value).value).value;
    ThreeTokensSuffix(l1, l2, l3, s);
    i := TokenAt(l4, a3, s);
    var h := TwoTokensLiteral(l4, l5, q, a3);
    SuffixTrans(h, a3, s);
  }

  lemma ThreeTokensSuffix(l1: string, l2: string, l3: string, s: string)
    requires Token(l1, s).Some? && Token(l2, Token(l1, s).value).Some?
    requires Token(l3, Token(l2, Token(l1, s).value).value).Some?
    ensures IsSuffix(Token(l3, Token(l2, Token(l1, s).value).value).value, s)
  {
    var a1 := Token(l1, s).value;
    var a2 := Token(l2, a1).value;
    TokenSuffix(l1, s);
    TokenSuffix(l2, a1);
    TokenSuffix(l3, a2);
    SuffixTrans(a2, a1, s);
    SuffixTrans(Token(l3, a2).value, a2, s);
  }

  lemma TwoTokensLiteral(l4: string, l5: string, q: string, a: string) returns (h: string)
    requires Token(l4, a).Some? && Token(l5, Token(l4, a).value).Some?
    requires Literal(q, Token(l5, Token(l4, a).value).value).Some?
    ensures h == Literal(q, Token(l5, Token(l4, a).value).value).value
    ensures IsSuffix(h, a) && |h| <= |a| - |l4|
  {
    var a4 := Token(l4, a).value;
    var a5 := Token(l5, a4).value;
    TokenSuffix(l4, a);
    TokenSuffix(l5, a4);
    LiteralSuffix(q, a5);
    h := Literal(q, a5).value;
    SuffixTrans(a5, a4, a);
    SuffixTrans(h, a5, a);
  }

  /** Where `TafTail` starts reading, the sentinel `'-2147483648'` follows at `j`. */
  lemma TafTailSentinel(y: string) returns (j: nat)
    requires TafTail(y).Some?
    ensures j + |TafSentinelArg| <= |y| - |TafTail(y).value| && y[j..j + |TafSentinelArg|] == TafSentinelArg
  {
    ConstantsHaveNoLetters();
    j := ThirdTokenAt(Quote, Comma, TafSentinelArg, CloseParen, y);
  }

  /** In four tokens read one after the other, where the third one sits. */
  lemma ThirdTokenAt(l1: string, l2: string, l3: string, l4: string, y: string) returns (j: nat)
    requires NoLetters(l3)
    requires Token(l1, y).Some? && Token(l2, Token(l1, y).value).Some?
    requires Token(l3, Token(l2, Token(l1, y).value).value).Some?
    requires Token(l4, Token(l3, Token(l2, Token(l1, y).value).value).value).Some?
    ensures j + |l3| <= |y| - |Token(l4, Token(l3, Token(l2, Token(l1, y).value).value).value).value|
    ensures y[j..j + |l3|] == l3
  {
    var b1 := Token(l1, y).value;
    var b2 := Token(l2, b1).value;
    var b3 := Token(l3, b2).value;
    TokenSuffix(l1, y);
    TokenSuffix(l2, b1);
    TokenSuffix(l4, b3);
    SuffixTrans(b2, b1, y);
    j := TokenAt(l3, b2, y);
  }

  /** A token with no letters in it, read where it matched. */
  lemma TokenAt(lit: string, x: string, s: string) returns (i: nat)
    requires IsSuffix(x, s) && NoLetters(lit) && Token(lit, x).Some?
    ensures i == |s| - |x| && i + |lit| <= |s| - |Token(lit, x).value|
    ensures s[i..i + |lit|] == lit
  {
    TokenSuffix(lit, x);
    i := PrefixAt(lit, x, s);
  }

  lemma PrefixAt(lit: string, x: string, s: string) returns (i: nat)
    requires IsSuffix(x, s) && NoLetters(lit) && FoldPrefix(lit, x)
    ensures i == |s| - |x| && i + |lit| <= |s| && s[i..i + |lit|] == lit
  {
    FoldPrefixNoLetters(lit, x);
    SuffixSlice(x, s, |lit|);
    i := |s| - |x|;
  }

  /** A `tafjfield` match holds the delimiter argument `'*'` and, after it,
      the sentinel argument `'-2147483648'`: a call with any other
      delimiter or last argument is not recognised as a `tafjfield` call. */
  lemma TafCallArguments(s: string) returns (i: nat, j: nat)
    requires MatchTafCall(s).Some?
    ensures i + |TafDelimArg| <= j && j + |TafSentinelArg| <= MatchTafCall(s).value.len
    ensures s[i..i + |TafDelimArg|] == TafDelimArg && s[j..j + |TafSentinelArg|] == TafSentinelArg
  {
    var s1 := TafHead(s).value;
    var d := Digits(s1).value;
    var r := TafRest(d.1).value;
    MatchTafCallSteps(s, s1, d.0, d.1, r.0, r.1);
    i := TafHeadDelimiter(s);
    j := TafSentinelAfterDigits(s, s1);
  }

  /** Past the position digits, the sentinel argument lies before the end
      of what `TafRest` reads. */
  lemma TafSentinelAfterDigits(s: string, s1: string) returns (j: nat)
    requires IsSuffix(s1, s) && Digits(s1).Some? && TafRest(Digits(s1).value.1).Some?
    ensures |s| - |s1| <= j && j + |TafSentinelArg| <= |s| - |TafRest(Digits(s1).value.1).value.1|
    ensures s[j..j + |TafSentinelArg|] == TafSentinelArg
  {
    var y := Digits(s1).value.1;
    SkipWhileSuffix(s1, IsDigit);
    SuffixTrans(y, s1, s);
    var j0 := TafTailSentinel(y);
    TafRestAfterTail(y);
    j := LiteralInSuffix(TafSentinelArg, y, s, j0);
  }

  lemma TafRestAfterTail(y: string)
    requires TafRest(y).Some?
    ensures TafTail(y).Some? && |TafRest(y).value.1| < |TafTail(y).value|
  {
  }

  lemma ConstantsHaveNoLetters()
    ensures NoLetters(TafDelimArg) && NoLetters(TafSentinelArg)
  {
  }

  /** A literal found inside a suffix, read in the whole string. */
  lemma LiteralInSuffix(lit: string, y: string, s: string, j0: nat) returns (j: nat)
    requires IsSuffix(y, s) && j0 + |lit| <= |y| && y[j0..j0 + |lit|] == lit
    ensures j == |s| - |y| + j0 && s[j..j + |lit|] == lit
  {
    j := |s| - |y| + j0;
    assert s[j..j + |lit|] == y[j0..j0 + |lit|];
  }

  lemma SkipWhileSuffix(s: string, p: char -> bool)
    ensures IsSuffix(SkipWhile(s, p), s)
  {
  }
}
