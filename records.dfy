/** The two record reconstructors of data_loader/processing.py: one source
    row becomes its RECID and either a tag-to-text map (XML tables) or two
    field lists (delimited tables).

    XML parsing itself is not modelled: the payload arrives as the sequence
    of the root's children, in document order, or as a parse failure. */
module Records {
  import opened Base
  import opened Text

  /** Joins the texts of a repeated XML element: U+F8FD, the T24 value mark. */
  const MultiValueDelimiter: string := "\U{F8FD}"

  /** Separates the fields of a delimited RECID. */
  const NonXmlTafDelimiter: string := "*"

  /** Separates the fields of a delimited XMLRECORD: U+F8FE, the T24 field mark. */
  const NonXmlExtDelimiter: string := "\U{F8FE}"

  /** One child of the record's root element; `text` is `None` for an
      element with no text. */
  datatype XmlChild = XmlChild(tag: string, text: Option<string>)

  /** What `ET.fromstring` makes of an XMLRECORD value. `Malformed` stands
      for every exception the parser may raise. */
  datatype XmlPayload = Parsed(children: seq<XmlChild>) | Malformed

  /** The record half of what `process_rows` returns for one source row. */
  datatype Record =
    | XmlFields(fields: map<string, string>)
    | DelimFields(taf: seq<string>, ext: seq<string>)

  /** One `(recid, record)` pair. */
  datatype ProcessedRow = ProcessedRow(recid: string, record: Record)

  // ---------------------------------------------------------------------
  // XML records

  /** `child.text`, with a missing text read as the empty string. */
  function TextOf(c: XmlChild): (r: string) {
    c.text.GetOr([])
  }

  /** The texts of the children tagged `t`, in document order. */
  function TextsWithTag(cs: seq<XmlChild>, t: string): (r: seq<string>)
    ensures |r| <= |cs|
    decreases |cs|
  {
    if cs == [] then []
    else TextsWithTag(cs[..|cs| - 1], t) + (if cs[|cs| - 1].tag == t then [TextOf(cs[|cs| - 1])] else [])
  }

  /** The tags that occur among the children. */
  function Tags(cs: seq<XmlChild>): (r: set<string>) {
    set k | 0 <= k < |cs| :: cs[k].tag
  }

  /** What an XML record should hold: every tag that occurs, mapped to the
      texts of all its elements in document order, separated by the value
      mark. */
  function Joined(cs: seq<XmlChild>): (r: map<string, string>) {
    map t | t in Tags(cs) :: Join(TextsWithTag(cs, t), MultiValueDelimiter)
  }

  /** `parse_extracted_xml_record`: the RECID comes back unchanged; a
      payload the parser rejects gives an empty record; otherwise every
      child is folded into the map in document order. */
  method ParseExtractedXmlRecord(recid: string, payload: XmlPayload) returns (id: string, record: map<string, string>)
    ensures id == recid
    ensures payload.Malformed? ==> record == map[]
    ensures payload.Parsed? ==> record == Joined(payload.children)
  {
    id := recid;
    record := map[];
    if payload.Parsed? {
      var cs := payload.children;
      var k := 0;
      assert cs[..0] == [];
      while k < |cs|
        invariant 0 <= k <= |cs|
        invariant record == Joined(cs[..k])
      {
        var tag := cs[k].tag;
        var value := TextOf(cs[k]);
        JoinedSnoc(cs[..k], cs[k]);
        if tag in record {
          record := record[tag := record[tag] + MultiValueDelimiter + value];
        } else {
          record := record[tag := value];
        }
        assert cs[..k + 1] == cs[..k] + [cs[k]];
        k := k + 1;
      }
      assert cs[..k] == cs;
    }
  }

  lemma TagsSnoc(cs: seq<XmlChild>, c: XmlChild)
    ensures Tags(cs + [c]) == Tags(cs) + {c.tag}
  {
    var xs := cs + [c];
    forall t | t in Tags(xs) ensures t in Tags(cs) + {c.tag} {
      var k :| 0 <= k < |xs| && xs[k].tag == t;
      if k < |cs| {
        assert cs[k] == xs[k];
      }
    }
    forall t | t in Tags(cs) ensures t in Tags(xs) {
      var k :| 0 <= k < |cs| && cs[k].tag == t;
      assert xs[k] == cs[k];
    }
    assert xs[|cs|] == c;
  }

  /** A tag occurs exactly when it has at least one text. */
  lemma {:induction false} TagsHaveTexts(cs: seq<XmlChild>, t: string)
    ensures t in Tags(cs) <==> TextsWithTag(cs, t) != []
    decreases |cs|
  {
    if cs != [] {
      var init, c := cs[..|cs| - 1], cs[|cs| - 1];
      assert cs == init + [c];
      TagsSnoc(init, c);
      TagsHaveTexts(init, t);
    }
  }

  /** One more child: a new tag is stored with its text unchanged, a
      repeated one gets the value mark and the new text appended. */
  lemma JoinedSnoc(cs: seq<XmlChild>, c: XmlChild)
    ensures var m := Joined(cs);
      Joined(cs + [c]) == if c.tag in m then m[c.tag := m[c.tag] + MultiValueDelimiter + TextOf(c)]
                          else m[c.tag := TextOf(c)]
  {
    var xs := cs + [c];
    var m := Joined(cs);
    TagsSnoc(cs, c);
    var n := Joined(xs);
    var e := if c.tag in m then m[c.tag := m[c.tag] + MultiValueDelimiter + TextOf(c)] else m[c.tag := TextOf(c)];
    assert n.Keys == e.Keys;
    forall t | t in n.Keys ensures n[t] == e[t] {
      TextsWithTagSnoc(cs, c, t);
      var ts := TextsWithTag(cs, t);
      assert n[t] == Join(TextsWithTag(xs, t), MultiValueDelimiter);
      if t == c.tag {
        assert TextsWithTag(xs, t) == ts + [TextOf(c)];
        TagsHaveTexts(cs, t);
        if c.tag in m {
          assert m[t] == Join(ts, MultiValueDelimiter);
          JoinSnoc(ts, TextOf(c), MultiValueDelimiter);
          assert e[t] == m[t] + MultiValueDelimiter + TextOf(c);
        } else {
          assert ts + [TextOf(c)] == [TextOf(c)];
          assert e[t] == TextOf(c);
        }
      } else {
        assert TextsWithTag(xs, t) == ts;
        assert t in Tags(cs);
        assert e[t] == m[t] == Join(ts, MultiValueDelimiter);
      }
    }
  }

  lemma TextsWithTagSnoc(cs: seq<XmlChild>, c: XmlChild, t: string)
    ensures TextsWithTag(cs + [c], t) == TextsWithTag(cs, t) + (if c.tag == t then [TextOf(c)] else [])
  {
    assert (cs + [c])[..|cs|] == cs;
  }

  /** A tag seen once keeps its text exactly; an element with no text
      contributes the empty string. */
  lemma SingleOccurrence(cs: seq<XmlChild>, k: nat)
    requires k < |cs|
    requires forall j :: 0 <= j < |cs| && j != k ==> cs[j].tag != cs[k].tag
    ensures cs[k].tag in Joined(cs)
    ensures Joined(cs)[cs[k].tag] == (if cs[k].text.Some? then cs[k].text.value else [])
  {
    var t := cs[k].tag;
    assert t in Tags(cs);
    TextsWithTagSingle(cs, k);
  }

  lemma {:induction false} TextsWithTagSingle(cs: seq<XmlChild>, k: nat)
    requires k < |cs|
    requires forall j :: 0 <= j < |cs| && j != k ==> cs[j].tag != cs[k].tag
    ensures TextsWithTag(cs, cs[k].tag) == [TextOf(cs[k])]
    decreases |cs|
  {
    var t := cs[k].tag;
    var init := cs[..|cs| - 1];
    if k == |cs| - 1 {
      TextsWithTagAbsent(init, t);
    } else {
      TextsWithTagSingle(init, k);
    }
  }

  lemma {:induction false} TextsWithTagAbsent(cs: seq<XmlChild>, t: string)
    requires forall j :: 0 <= j < |cs| ==> cs[j].tag != t
    ensures TextsWithTag(cs, t) == []
    decreases |cs|
  {
    if cs != [] {
      TextsWithTagAbsent(cs[..|cs| - 1], t);
    }
  }

  /** When no text holds the value mark, splitting a stored value on it
      gives back the texts of that tag's elements, in document order. */
  lemma JoinedSplits(cs: seq<XmlChild>, t: string)
    requires t in Joined(cs)
    requires forall k :: 0 <= k < |cs| ==> MultiValueDelimiter[0] !in TextOf(cs[k])
    ensures Split(Joined(cs)[t], MultiValueDelimiter) == TextsWithTag(cs, t)
  {
    var xs := TextsWithTag(cs, t);
    TagsHaveTexts(cs, t);
    TextsWithTagFrom(cs, t);
    forall i | 0 <= i < |xs| ensures MultiValueDelimiter[0] !in xs[i] {
      assert xs[i] in xs;
    }
    SplitJoin(xs, MultiValueDelimiter);
  }

  /** Every text of a tag is the text of one of the children. */
  lemma {:induction false} TextsWithTagFrom(cs: seq<XmlChild>, t: string)
    ensures forall x :: x in TextsWithTag(cs, t) ==> exists k :: 0 <= k < |cs| && x == TextOf(cs[k])
    decreases |cs|
  {
    if cs != [] {
      var init := cs[..|cs| - 1];
      TextsWithTagFrom(init, t);
      forall x | x in TextsWithTag(cs, t) ensures exists k :: 0 <= k < |cs| && x == TextOf(cs[k]) {
        if x in TextsWithTag(init, t) {
          var k :| 0 <= k < |init| && x == TextOf(init[k]);
          assert cs[k] == init[k];
        } else {
          assert x == TextOf(cs[|cs| - 1]);
        }
      }
    }
  }

  // ---------------------------------------------------------------------
  // Delimited records

  /** `parse_delimited_record`: the RECID is returned unchanged, the RECID
      text is split on `*` and the XMLRECORD text on the field mark. Each
      list has one field more than its text has separators, no field holds
      a separator, and joining a list back with its separator restores the
      text it came from. */
  function ParseDelimitedRecord(recid: string, recidText: string, payloadText: string): (r: ProcessedRow)
    ensures r.recid == recid && r.record.DelimFields?
    ensures |r.record.taf| == Count(recidText, '*') + 1
    ensures |r.record.ext| == Count(payloadText, NonXmlExtDelimiter[0]) + 1
    ensures forall k :: 0 <= k < |r.record.taf| ==> '*' !in r.record.taf[k]
    ensures forall k :: 0 <= k < |r.record.ext| ==> NonXmlExtDelimiter[0] !in r.record.ext[k]
    ensures Join(r.record.taf, NonXmlTafDelimiter) == recidText
    ensures Join(r.record.ext, NonXmlExtDelimiter) == payloadText
  {
    SplitOnChar(recidText, '*');
    SplitOnChar(payloadText, NonXmlExtDelimiter[0]);
    JoinSplit(recidText, NonXmlTafDelimiter);
    JoinSplit(payloadText, NonXmlExtDelimiter);
    ProcessedRow(recid, DelimFields(Split(recidText, NonXmlTafDelimiter), Split(payloadText, NonXmlExtDelimiter)))
  }
}
