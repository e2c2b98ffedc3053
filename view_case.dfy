/** Both view-definition patterns are compiled with `re.IGNORECASE`
    (data_loader/processing.py:20, 40): a view definition that differs only
    in the case of its ASCII letters yields a mapping of the same length,
    with the same tag digits, positions and kinds, and with captured texts
    equal up to case. */
module ViewCase {
  import opened Base
  import opened Text
  import opened Matching
  import opened ViewMapping

  /** Two stage results that agree up to case on the text left over. */
  predicate SameRest(a: Option<string>, b: Option<string>) {
    (a.None? && b.None?) || (a.Some? && b.Some? && FoldEqStr(a.value, b.value))
  }

  /** Two captures with the text after them, agreeing up to case. */
  predicate SamePair(a: Option<(string, string)>, b: Option<(string, string)>) {
    (a.None? && b.None?)
    || (a.Some? && b.Some? && FoldEqStr(a.value.0, b.value.0) && FoldEqStr(a.value.1, b.value.1))
  }

  predicate FoldEqXmlEntry(a: XmlEntry, b: XmlEntry) {
    FoldEqStr(a.tag, b.tag) && FoldEqStr(a.alias, b.alias)
  }

  predicate FoldEqGroups(a: DelimGroups, b: DelimGroups) {
    SameRest(a.tafPos, b.tafPos) && SameRest(a.tafAlias, b.tafAlias)
    && SameRest(a.extPos, b.extPos) && SameRest(a.extAlias, b.extAlias)
  }

  predicate FoldEqDelimEntry(a: DelimEntry, b: DelimEntry) {
    a.position == b.position && a.kind == b.kind && FoldEqStr(a.alias, b.alias)
  }

  // ---------------------------------------------------------------------
  // Building blocks

  /** The classes `\s`, `\d` and `[^"]` contain no ASCII letter. */
  lemma CaseBlindSpace()
    ensures CaseBlind(IsSpace)
  {
  }

  lemma CaseBlindDigit()
    ensures CaseBlind(IsDigit)
  {
  }

  lemma CaseBlindQuote()
    ensures CaseBlind(NotQuote)
  {
  }

  lemma LiteralFold(lit: string, s: string, t: string)
    requires FoldEqStr(s, t)
    ensures SameRest(Literal(lit, s), Literal(lit, t))
  {
    forall k | 0 <= k < |lit| && k < |s| ensures FoldEq(s[k], lit[k]) <==> FoldEq(t[k], lit[k]) {
      FoldEqAt(s, t, k);
    }
    if FoldPrefix(lit, s) {
      FoldEqSuffix(s, t, |lit|);
    }
  }

  lemma TokenFold(lit: string, s: string, t: string)
    requires FoldEqStr(s, t)
    ensures SameRest(Token(lit, s), Token(lit, t))
  {
    LiteralFold(lit, s, t);
    var a, b := Literal(lit, s), Literal(lit, t);
    if a.Some? {
      SkipSpaceFold(a.value, b.value);
    }
  }

  lemma SkipSpaceFold(s: string, t: string)
    requires FoldEqStr(s, t)
    ensures FoldEqStr(SkipWhile(s, IsSpace), SkipWhile(t, IsSpace))
  {
    CaseBlindSpace();
    var n := SkipWhileFoldParts(s, t, IsSpace);
  }

  lemma DigitsFold(s: string, t: string)
    requires FoldEqStr(s, t)
    ensures SamePair(Digits(s), Digits(t))
  {
    CaseBlindDigit();
    var n := SkipWhileFoldParts(s, t, IsDigit);
  }

  lemma QuotedFold(s: string, t: string)
    requires FoldEqStr(s, t)
    ensures SamePair(QuotedAlias(s), QuotedAlias(t))
  {
    if s != [] {
      FoldEqAt(s, t, 0);
      if s[0] == '"' {
        var s1, t1 := s[1..], t[1..];
        FoldEqSuffix(s, t, 1);
        CaseBlindQuote();
        var n := SkipWhileFoldParts(s1, t1, NotQuote);
        var a, b := SkipWhile(s1, NotQuote), SkipWhile(t1, NotQuote);
        if a != [] {
          FoldEqSuffix(a, b, 1);
        }
      }
    }
  }

  lemma TagAtFold(s: string, t: string)
    requires FoldEqStr(s, t)
    ensures SamePair(TagAt(s), TagAt(t))
  {
    if s != [] {
      FoldEqAt(s, t, 0);
      assert FoldEq(s[0], 'c') <==> FoldEq(t[0], 'c');
      FoldEqSuffix(s, t, 1);
      DigitsFold(s[1..], t[1..]);
      var d, e := Digits(s[1..]), Digits(t[1..]);
      if d.Some? {
        FoldEqCons(s[0], t[0], d.value.0, e.value.0);
      }
    }
  }

  // ---------------------------------------------------------------------
  // XML mode

  lemma XmlHeadFold(s: string, t: string)
    requires FoldEqStr(s, t)
    ensures SameRest(XmlHead(s), XmlHead(t))
  {
    TokenFold(XmlOpen, s, t);
    var a, b := Token(XmlOpen, s), Token(XmlOpen, t);
    if a.Some? {
      LiteralFold(DataPath, a.value, b.value);
    }
  }

  lemma XmlTailFold(s: string, t: string)
    requires FoldEqStr(s, t)
    ensures SameRest(XmlTail(s), XmlTail(t))
  {
    TokenFold(TagClose, s, t);
    var a1, b1 := Token(TagClose, s), Token(TagClose, t);
    if a1.Some? {
      TokenFold(Comma, a1.value, b1.value);
      var a2, b2 := Token(Comma, a1.value), Token(Comma, b1.value);
      if a2.Some? {
        TokenFold(NvarcharMax, a2.value, b2.value);
        var a3, b3 := Token(NvarcharMax, a2.value), Token(NvarcharMax, b2.value);
        if a3.Some? {
          TokenFold(CloseParen, a3.value, b3.value);
        }
      }
    }
  }

  lemma XmlRestFold(s: string, t: string)
    requires FoldEqStr(s, t)
    ensures SamePair(XmlRest(s), XmlRest(t))
  {
    XmlTailFold(s, t);
    if XmlTail(s).Some? {
      QuotedFold(XmlTail(s).value, XmlTail(t).value);
    }
  }

  lemma MatchXmlCallFold(s: string, t: string)
    requires FoldEqStr(s, t)
    ensures SameHit(MatchXmlCall(s), MatchXmlCall(t), FoldEqXmlEntry)
  {
    XmlHeadFold(s, t);
    var a1, b1 := XmlHead(s), XmlHead(t);
    if a1.Some? {
      TagAtFold(a1.value, b1.value);
      var a2, b2 := TagAt(a1.value), TagAt(b1.value);
      if a2.Some? {
        XmlRestFold(a2.value.1, b2.value.1);
        var a3, b3 := XmlRest(a2.value.1), XmlRest(b2.value.1);
        if a3.Some? {
          MatchXmlCallSteps(s, a1.value, a2.value.0, a2.value.1, a3.value.0, a3.value.1);
          MatchXmlCallSteps(t, b1.value, b2.value.0, b2.value.1, b3.value.0, b3.value.1);
          FoldEqLength(s, t);
          FoldEqLength(a3.value.1, b3.value.1);
          SameEntryHit(MatchXmlCall(s), MatchXmlCall(t), XmlEntry(a2.value.0, a3.value.0), XmlEntry(b2.value.0, b3.value.0));
        } else {
          assert MatchXmlCall(s).None? && MatchXmlCall(t).None?;
        }
      } else {
        assert MatchXmlCall(s).None? && MatchXmlCall(t).None?;
      }
    } else {
      assert MatchXmlCall(s).None? && MatchXmlCall(t).None?;
    }
  }

  lemma SameEntryHit(a: Option<Hit<XmlEntry>>, b: Option<Hit<XmlEntry>>, g: XmlEntry, h: XmlEntry)
    requires a.Some? && b.Some? && a.value.value == g && b.value.value == h
    requires a.value.len == b.value.len && FoldEqXmlEntry(g, h)
    ensures SameHit(a, b, FoldEqXmlEntry)
  {
  }

  /** `parse_view_mapping_xml` ignores letter case: texts equal up to case
      give as many entries, each equal up to case to its counterpart. */
  lemma ParseViewMappingXmlIgnoresCase(s: string, t: string)
    requires FoldEqStr(s, t)
    ensures |ParseViewMappingXml(s)| == |ParseViewMappingXml(t)|
    ensures forall k :: 0 <= k < |ParseViewMappingXml(s)| ==>
      FoldEqXmlEntry(ParseViewMappingXml(s)[k], ParseViewMappingXml(t)[k])
  {
    forall p | 0 <= p < |s|
      ensures SameHit(MatchXmlCall(s[p..]), MatchXmlCall(t[p..]), FoldEqXmlEntry)
    {
      FoldEqSuffix(s, t, p);
      MatchXmlCallFold(s[p..], t[p..]);
    }
    ScanCorresponds(MatchXmlCall, s, t, 0, FoldEqXmlEntry);
  }

  // ---------------------------------------------------------------------
  // Delimited mode

  lemma TafHeadFold(s: string, t: string)
    requires FoldEqStr(s, t)
    ensures SameRest(TafHead(s), TafHead(t))
  {
    TokenFold(TafOpen, s, t);
    var a1, b1 := Token(TafOpen, s), Token(TafOpen, t);
    if a1.Some? {
      TokenFold(RecidArg, a1.value, b1.value);
      var a2, b2 := Token(RecidArg, a1.value), Token(RecidArg, b1.value);
      if a2.Some? {
        TokenFold(Comma, a2.value, b2.value);
        var a3, b3 := Token(Comma, a2.value), Token(Comma, b2.value);
        if a3.Some? {
          TokenFold(TafDelimArg, a3.value, b3.value);
          var a4, b4 := Token(TafDelimArg, a3.value), Token(TafDelimArg, b3.value);
          if a4.Some? {
            TokenFold(Comma, a4.value, b4.value);
            var a5, b5 := Token(Comma, a4.value), Token(Comma, b4.value);
            if a5.Some? {
              LiteralFold(Quote, a5.value, b5.value);
            }
          }
        }
      }
    }
  }

  lemma TafTailFold(s: string, t: string)
    requires FoldEqStr(s, t)
    ensures SameRest(TafTail(s), TafTail(t))
  {
    TokenFold(Quote, s, t);
    var a1, b1 := Token(Quote, s), Token(Quote, t);
    if a1.Some? {
      TokenFold(Comma, a1.value, b1.value);
      var a2, b2 := Token(Comma, a1.value), Token(Comma, b1.value);
      if a2.Some? {
        TokenFold(TafSentinelArg, a2.value, b2.value);
        var a3, b3 := Token(TafSentinelArg, a2.value), Token(TafSentinelArg, b2.value);
        if a3.Some? {
          TokenFold(CloseParen, a3.value, b3.value);
        }
      }
    }
  }

  lemma TafRestFold(s: string, t: string)
    requires FoldEqStr(s, t)
    ensures SamePair(TafRest(s), TafRest(t))
  {
    TafTailFold(s, t);
    if TafTail(s).Some? {
      QuotedFold(TafTail(s).value, TafTail(t).value);
    }
  }

  lemma MatchTafCallFold(s: string, t: string)
    requires FoldEqStr(s, t)
    ensures SameHit(MatchTafCall(s), MatchTafCall(t), FoldEqGroups)
  {
    TafHeadFold(s, t);
    var a1, b1 := TafHead(s), TafHead(t);
    if a1.Some? {
      DigitsFold(a1.value, b1.value);
      var a2, b2 := Digits(a1.value), Digits(b1.value);
      if a2.Some? {
        TafRestFold(a2.value.1, b2.value.1);
        var a3, b3 := TafRest(a2.value.1), TafRest(b2.value.1);
        if a3.Some? {
          MatchTafCallSteps(s, a1.value, a2.value.0, a2.value.1, a3.value.0, a3.value.1);
          MatchTafCallSteps(t, b1.value, b2.value.0, b2.value.1, b3.value.0, b3.value.1);
          FoldEqLength(s, t);
          FoldEqLength(a3.value.1, b3.value.1);
          SameGroupsHit(MatchTafCall(s), MatchTafCall(t),
            DelimGroups(Some(a2.value.0), Some(a3.value.0), None, None),
            DelimGroups(Some(b2.value.0), Some(b3.value.0), None, None));
        } else {
          assert MatchTafCall(s).None? && MatchTafCall(t).None?;
        }
      } else {
        assert MatchTafCall(s).None? && MatchTafCall(t).None?;
      }
    } else {
      assert MatchTafCall(s).None? && MatchTafCall(t).None?;
    }
  }

  lemma OptionalMinusFold(s: string, t: string)
    requires FoldEqStr(s, t)
    ensures FoldEqStr(OptionalMinus(s), OptionalMinus(t))
  {
    if s != [] {
      FoldEqAt(s, t, 0);
      FoldEqSuffix(s, t, 1);
    }
  }

  lemma ExtHeadFold(s: string, t: string)
    requires FoldEqStr(s, t)
    ensures SameRest(ExtHead(s), ExtHead(t))
  {
    TokenFold(ExtOpen, s, t);
    var a1, b1 := Token(ExtOpen, s), Token(ExtOpen, t);
    if a1.Some? {
      TokenFold(XmlRecordArg, a1.value, b1.value);
      var a2, b2 := Token(XmlRecordArg, a1.value), Token(XmlRecordArg, b1.value);
      if a2.Some? {
        TokenFold(Comma, a2.value, b2.value);
      }
    }
  }

  lemma ExtMiddleFold(s: string, t: string)
    requires FoldEqStr(s, t)
    ensures SameRest(ExtMiddle(s), ExtMiddle(t))
  {
    SkipSpaceFold(s, t);
    var a, b := SkipWhile(s, IsSpace), SkipWhile(t, IsSpace);
    TokenFold(Comma, a, b);
    if Token(Comma, a).Some? {
      OptionalMinusFold(Token(Comma, a).value, Token(Comma, b).value);
    }
  }

  lemma ExtCloseFold(s: string, t: string)
    requires FoldEqStr(s, t)
    ensures SameRest(ExtClose(s), ExtClose(t))
  {
    SkipSpaceFold(s, t);
    TokenFold(CloseParen, SkipWhile(s, IsSpace), SkipWhile(t, IsSpace));
  }

  lemma ExtRestFold(s: string, t: string)
    requires FoldEqStr(s, t)
    ensures SamePair(ExtRest(s), ExtRest(t))
  {
    ExtMiddleFold(s, t);
    var a1, b1 := ExtMiddle(s), ExtMiddle(t);
    if a1.Some? {
      DigitsFold(a1.value, b1.value);
      var a2, b2 := Digits(a1.value), Digits(b1.value);
      if a2.Some? {
        ExtCloseFold(a2.value.1, b2.value.1);
        var a3, b3 := ExtClose(a2.value.1), ExtClose(b2.value.1);
        if a3.Some? {
          QuotedFold(a3.value, b3.value);
        }
      }
    }
  }

  lemma MatchExtCallFold(s: string, t: string)
    requires FoldEqStr(s, t)
    ensures SameHit(MatchExtCall(s), MatchExtCall(t), FoldEqGroups)
  {
    ExtHeadFold(s, t);
    var a1, b1 := ExtHead(s), ExtHead(t);
    if a1.Some? {
      DigitsFold(a1.value, b1.value);
      var a2, b2 := Digits(a1.value), Digits(b1.value);
      if a2.Some? {
        ExtRestFold(a2.value.1, b2.value.1);
        var a3, b3 := ExtRest(a2.value.1), ExtRest(b2.value.1);
        if a3.Some? {
          assert SameHit(MatchExtCall(s), MatchExtCall(t), FoldEqGroups) by {
            MatchExtCallSteps(s, a1.value, a2.value.0, a2.value.1, a3.value.0, a3.value.1);
            MatchExtCallSteps(t, b1.value, b2.value.0, b2.value.1, b3.value.0, b3.value.1);
            FoldEqLength(s, t);
            FoldEqLength(a3.value.1, b3.value.1);
            SameGroupsHit(MatchExtCall(s), MatchExtCall(t),
              DelimGroups(None, None, Some(a2.value.0), Some(a3.value.0)),
              DelimGroups(None, None, Some(b2.value.0), Some(b3.value.0)));
          }
        } else {
          assert MatchExtCall(s).None? && MatchExtCall(t).None?;
        }
      } else {
        assert MatchExtCall(s).None? && MatchExtCall(t).None?;
      }
    } else {
      assert MatchExtCall(s).None? && MatchExtCall(t).None?;
    }
  }

  lemma FoldEqLength(s: string, t: string)
    requires FoldEqStr(s, t)
    ensures |s| == |t|
  {
    assert |s| == |LowerStr(s)| && |t| == |LowerStr(t)|;
  }

  lemma SameGroupsHit(a: Option<Hit<DelimGroups>>, b: Option<Hit<DelimGroups>>, g: DelimGroups, h: DelimGroups)
    requires a.Some? && b.Some? && a.value.value == g && b.value.value == h
    requires a.value.len == b.value.len && FoldEqGroups(g, h)
    ensures SameHit(a, b, FoldEqGroups)
  {
  }

  lemma MatchDelimitedCallFold(s: string, t: string)
    requires FoldEqStr(s, t)
    ensures SameHit(MatchDelimitedCall(s), MatchDelimitedCall(t), FoldEqGroups)
  {
    MatchTafCallFold(s, t);
    MatchExtCallFold(s, t);
  }

  /** The `k`-th entry of the loop's output comes from the `k`-th match. */
  lemma {:induction false} EntriesOfAt(gs: seq<DelimGroups>, k: nat)
    requires forall j :: 0 <= j < |gs| ==> WellFormedGroups(gs[j])
    requires k < |gs|
    ensures |EntriesOf(gs)| == |gs| && EntryOf(gs[k]) == [EntriesOf(gs)[k]]
    decreases |gs|
  {
    EntriesOfLength(gs);
    var n := |gs| - 1;
    EntriesOfLength(gs[..n]);
    if k < n {
      EntriesOfAt(gs[..n], k);
    }
  }

  /** Matches equal up to case produce entries equal up to case. */
  lemma EntryOfFold(g: DelimGroups, h: DelimGroups)
    requires WellFormedGroups(g) && WellFormedGroups(h) && FoldEqGroups(g, h)
    ensures |EntryOf(g)| == |EntryOf(h)| == 1 && FoldEqDelimEntry(EntryOf(g)[0], EntryOf(h)[0])
  {
    if g.tafPos.Some? {
      FoldEqDigits(g.tafPos.value, h.tafPos.value);
    } else {
      FoldEqDigits(g.extPos.value, h.extPos.value);
    }
  }

  /** `parse_view_mapping_nonxml` ignores letter case: texts equal up to
      case give as many entries, with the same positions and kinds, and
      aliases equal up to case. */
  lemma ParseViewMappingNonXmlIgnoresCase(s: string, t: string)
    requires FoldEqStr(s, t)
    ensures |DelimitedMapping(s)| == |DelimitedMapping(t)|
    ensures forall k :: 0 <= k < |DelimitedMapping(s)| ==>
      FoldEqDelimEntry(DelimitedMapping(s)[k], DelimitedMapping(t)[k])
  {
    forall p | 0 <= p < |s|
      ensures SameHit(MatchDelimitedCall(s[p..]), MatchDelimitedCall(t[p..]), FoldEqGroups)
    {
      FoldEqSuffix(s, t, p);
      MatchDelimitedCallFold(s[p..], t[p..]);
    }
    ScanCorresponds(MatchDelimitedCall, s, t, 0, FoldEqGroups);
    var gs, hs := DelimitedMatches(s), DelimitedMatches(t);
    forall k | 0 <= k < |gs|
      ensures |DelimitedMapping(s)| == |gs| == |hs| == |DelimitedMapping(t)|
      ensures FoldEqDelimEntry(DelimitedMapping(s)[k], DelimitedMapping(t)[k])
    {
      EntriesOfAt(gs, k);
      EntriesOfAt(hs, k);
      EntryOfFold(gs[k], hs[k]);
    }
    EntriesOfLength(gs);
    EntriesOfLength(hs);
  }
}
