/** The attribute list of a start tag (expat/xmltok_impl.c:1423-1518) and the choice it
    drives between storing a value as it is and normalizing it
    (expat/xmlparse.c:2618-2682). */
module AttList {
  import opened Wrappers
  import opened Endian
  import opened XmlBytes
  import opened XmlScan
  import opened AttValue
  import opened AttStore
  import Unicode

  /** `ATTRIBUTE`, with positions in the tag for pointers. */
  datatype Att = Att(name: nat, valuePtr: nat, valueEnd: nat, normalized: bool)

  /** Where the scan is: `inName` is Element or InName, `other` is Gap or After. */
  datatype Where = Element | Gap | InName | After

  /** The end of the value that `quote` delimits, and whether it is still taken for
      normalized; None if the scan runs out of the tag. */
  function ValueScan(enc: Encoding, s: seq<Byte>, i: nat, quote: ByteType, value: nat, norm: bool): (r: Option<(nat, bool)>)
    ensures r.Some? ==> i <= r.value.0 < |s|
    decreases |s| - i
  {
    if i >= |s| then None
    else
      var t := enc.byteType(s[i]);
      if t == quote then Some((i, norm))
      else if IsLead(t) then ValueScan(enc, s, i + LeadWidth(t), quote, value, norm)
      else if t.Amp? || t.Cr? || t.Lf? then ValueScan(enc, s, i + 1, quote, value, false)
      else if t.S? then
        if i + 1 == |s| then None
        else ValueScan(enc, s, i + 1, quote, value, norm && !Resets(enc, s, i, quote, value))
      else ValueScan(enc, s, i + 1, quote, value, norm)
  }

  /** White space of type S that a normalized value cannot have: at an end, no space, or in
      front of another space. */
  predicate Resets(enc: Encoding, s: seq<Byte>, i: nat, quote: ByteType, value: nat)
    requires i + 1 < |s|
  {
    i == value || s[i] != SPACE || s[i + 1] == SPACE || enc.byteType(s[i + 1]) == quote
  }

  /** The attributes from position `i` on, None if the bytes are no tag. */
  function Atts(enc: Encoding, s: seq<Byte>, i: nat, w: Where, name: nat): Option<seq<Att>>
    decreases |s| - i
  {
    if i >= |s| then None
    else
      var t := enc.byteType(s[i]);
      var n := if IsLead(t) then LeadWidth(t) else 1;
      if t.Gt? || t.Sol? then Some([])
      else if t.Quot? || t.Apos? then
        if w.Element? || w.Gap? then None
        else
          match ValueScan(enc, s, i + 1, t, i + 1, true)
          case None => None
          case Some((end, norm)) => Cons(Att(name, i + 1, end, norm), Atts(enc, s, end + 1, Gap, 0))
      else if t.Amp? then None
      else if IsSpace(t) then Atts(enc, s, i + 1, if w.Element? then Gap else if w.InName? then After else w, name)
      else if StartsName(t) then
        if w.After? then None
        else Atts(enc, s, i + n, if w.Gap? then InName else w, if w.Gap? then i else name)
      else Atts(enc, s, i + 1, w, name)
  }

  function Cons(a: Att, rest: Option<seq<Att>>): Option<seq<Att>> {
    match rest
    case None => None
    case Some(l) => Some([a] + l)
  }

  // ----- a tag that the tokenizer has accepted is a tag for the attribute list

  /** In a value that is not normalized any more, only the closing quote matters. */
  lemma PlainScan(enc: Encoding, s: seq<Byte>, i: nat, j: nat, quote: ByteType, value: nat)
    requires i < j < |s| && enc.byteType(s[i]) != quote
    requires var t := enc.byteType(s[i]); j == i + if IsLead(t) then LeadWidth(t) else 1
    ensures ValueScan(enc, s, i, quote, value, false) == ValueScan(enc, s, j, quote, value, false)
  {
  }

  /** A reference inside a value is passed over. */
  lemma {:induction false} RefScan(enc: Encoding, s: seq<Byte>, i: nat, st: RefState, quote: ByteType, value: nat)
    requires i <= |s| && RefRun(enc, s, i, st).Tok? && RefRun(enc, s, i, st).next < |s|
    requires (quote.Quot? || quote.Apos?) && enc.byteType(0x78).Nmstrt?
    ensures ValueScan(enc, s, i, quote, value, false) == ValueScan(enc, s, RefRun(enc, s, i, st).next, quote, value, false)
    decreases |s| - i
  {
    var m := RefStep(enc, s, i, st);
    PlainScan(enc, s, i, if m.Go? then m.i else m.t.next, quote, value);
    if m.Go? {
      RefScan(enc, s, m.i, m.st, quote, value);
    }
  }

  /** One step of the tokenizer inside a value is one or more steps of the attribute scan. */
  lemma ValueMove(enc: Encoding, s: seq<Byte>, i: nat, quote: ByteType, value: nat, norm: bool, flag: bool)
    requires i < |s| && enc.byteType(s[i]) != quote && ValueStep(enc, s, i, quote).Go? && ValueStep(enc, s, i, quote).i < |s|
    requires (quote.Quot? || quote.Apos?) && enc.byteType(0x78).Nmstrt?
    requires var t := enc.byteType(s[i]);
             flag == (norm && !t.Amp? && !t.Cr? && !t.Lf? && !(t.S? && i + 1 < |s| && Resets(enc, s, i, quote, value)))
    ensures ValueScan(enc, s, i, quote, value, norm) ==
            ValueScan(enc, s, ValueStep(enc, s, i, quote).i, quote, value, flag)
  {
    if enc.byteType(s[i]).Amp? {
      RefScan(enc, s, i + 1, RefFirst, quote, value);
    }
  }

  /** A value that the tokenizer has passed over ends at the same quote. */
  lemma {:induction false} ValueEnds(enc: Encoding, s: seq<Byte>, i: nat, quote: ByteType, value: nat, norm: bool)
    requires i <= |s| && ValueRun(enc, s, i, quote).Go? && ValueRun(enc, s, i, quote).i < |s|
    requires (quote.Quot? || quote.Apos?) && enc.byteType(0x78).Nmstrt?
    ensures var r := ValueScan(enc, s, i, quote, value, norm);
            r.Some? && ValueRun(enc, s, i, quote) == Go(r.value.0 + 1, AttClosed)
    decreases |s| - i
  {
    var t := enc.byteType(s[i]);
    if t != quote {
      var m := ValueStep(enc, s, i, quote);
      var flag := norm && !t.Amp? && !t.Cr? && !t.Lf? && !(t.S? && Resets(enc, s, i, quote, value));
      ValueEnds(enc, s, m.i, quote, value, flag);
      ValueMove(enc, s, i, quote, value, norm, flag);
    }
  }

  /** An attribute whose value the tokenizer has passed over. */
  ghost predicate Scanned(enc: Encoding, s: seq<Byte>, a: Att, quote: ByteType) {
    (quote.Quot? || quote.Apos?) && 0 < a.valuePtr <= |s| && enc.byteType(s[a.valuePtr - 1]) == quote &&
    ValueRun(enc, s, a.valuePtr, quote) == Go(a.valueEnd + 1, AttClosed) && a.valueEnd < |s| &&
    ValueScan(enc, s, a.valuePtr, quote, a.valuePtr, true) == Some((a.valueEnd, a.normalized))
  }

  ghost predicate AllScanned(enc: Encoding, s: seq<Byte>, r: Option<seq<Att>>) {
    r.Some? && forall a | a in r.value :: exists quote :: Scanned(enc, s, a, quote)
  }

  lemma ConsScanned(enc: Encoding, s: seq<Byte>, a: Att, quote: ByteType, rest: Option<seq<Att>>)
    requires Scanned(enc, s, a, quote) && AllScanned(enc, s, rest)
    ensures AllScanned(enc, s, Cons(a, rest))
  {
  }

  /** How the two scans correspond inside the attributes. */
  predicate Corresponds(st: AttState, w: Where) {
    match st
    case AttName(_) | AttColon => w.InName?
    case AttEquals => w.After?
    case AttOpen => w.InName? || w.After?
    case AttClosed | AttGap => w.Gap?
  }

  /** Where the attribute scan is after a move of the tokenizer. */
  function NextWhere(enc: Encoding, b: Byte, st: AttState, w: Where): Where {
    if IsSpace(enc.byteType(b)) && w.InName? then After
    else if st.AttGap? && !IsSpace(enc.byteType(b)) then InName
    else w
  }

  lemma AttsMove(enc: Encoding, s: seq<Byte>, i: nat, st: AttState, w: Where, name: nat)
    requires i < |s| && Corresponds(st, w) && AttStep(enc, s, i, st).Go?
    requires st.AttOpen? ==> IsSpace(enc.byteType(s[i]))
    ensures var m, next := AttStep(enc, s, i, st), NextWhere(enc, s[i], st, w);
            Corresponds(m.st, next) &&
            Atts(enc, s, i, w, name) == Atts(enc, s, m.i, next, if w.Gap? && next.InName? then i else name)
  {
    var t := enc.byteType(s[i]);
    match st
    case AttName(_) =>
    case AttColon =>
    case AttEquals =>
    case AttOpen =>
    case AttClosed => assert IsSpace(t);
    case AttGap => assert IsSpace(t) || NmstrtStep(enc, s, i).Skip?;
  }

  lemma {:induction false} AttsFound(enc: Encoding, s: seq<Byte>, i: nat, st: AttState, w: Where, name: nat)
    requires i <= |s| && AttRun(enc, s, i, st).Tok? && Corresponds(st, w) && enc.byteType(0x78).Nmstrt?
    ensures AllScanned(enc, s, Atts(enc, s, i, w, name)) == true
    decreases |s| - i, 1
  {
    var t := enc.byteType(s[i]);
    var m := AttStep(enc, s, i, st);
    if st.AttOpen? && (t.Quot? || t.Apos?) {
      ValueFound(enc, s, i, w, name);
    } else if m.Go? {
      var next := NextWhere(enc, s[i], st, w);
      AttsMove(enc, s, i, st, w, name);
      AttsFound(enc, s, m.i, m.st, next, if w.Gap? && next.InName? then i else name);
    } else {
      assert t.Gt? || t.Sol?;
      assert Atts(enc, s, i, w, name) == Some([]);
    }
  }

  /** Inside a value no token ends. */
  lemma {:induction false} ValueStops(enc: Encoding, s: seq<Byte>, i: nat, quote: ByteType)
    requires i <= |s| && ValueRun(enc, s, i, quote).Stop?
    ensures !ValueRun(enc, s, i, quote).t.Tok?
    decreases |s| - i
  {
    if i < |s| {
      var m := ValueStep(enc, s, i, quote);
      if m.Go? { ValueStops(enc, s, m.i, quote); }
    }
  }

  lemma AttsQuote(enc: Encoding, s: seq<Byte>, i: nat, w: Where, name: nat)
    requires i < |s| && (w.InName? || w.After?) && (enc.byteType(s[i]).Quot? || enc.byteType(s[i]).Apos?)
    requires ValueScan(enc, s, i + 1, enc.byteType(s[i]), i + 1, true).Some?
    ensures var (end, norm) := ValueScan(enc, s, i + 1, enc.byteType(s[i]), i + 1, true).value;
            Atts(enc, s, i, w, name) == Cons(Att(name, i + 1, end, norm), Atts(enc, s, end + 1, Gap, 0))
  {
  }

  /** The tokenizer passed over the value, and came to the end of the tag. */
  lemma OpenPassed(enc: Encoding, s: seq<Byte>, i: nat)
    requires i < |s| && AttRun(enc, s, i, AttOpen).Tok? && (enc.byteType(s[i]).Quot? || enc.byteType(s[i]).Apos?)
    ensures var m := ValueRun(enc, s, i + 1, enc.byteType(s[i]));
            m.Go? && m.i < |s| && AttRun(enc, s, m.i, AttClosed).Tok?
  {
    var m := ValueRun(enc, s, i + 1, enc.byteType(s[i]));
    if m.Stop? {
      ValueStops(enc, s, i + 1, enc.byteType(s[i]));
    }
    assert AttStep(enc, s, i, AttOpen) == m;
  }

  lemma {:induction false} ValueFound(enc: Encoding, s: seq<Byte>, i: nat, w: Where, name: nat)
    requires i < |s| && AttRun(enc, s, i, AttOpen).Tok? && Corresponds(AttOpen, w) && enc.byteType(0x78).Nmstrt?
    requires enc.byteType(s[i]).Quot? || enc.byteType(s[i]).Apos?
    ensures AllScanned(enc, s, Atts(enc, s, i, w, name)) == true
    decreases |s| - i, 0
  {
    var t := enc.byteType(s[i]);
    OpenPassed(enc, s, i);
    AttsFound(enc, s, ValueRun(enc, s, i + 1, t).i, AttClosed, Gap, 0);
    ValueFirst(enc, s, i, w, name);
  }

  /** The value that opens at `i` is found in front of those behind it. */
  lemma ValueFirst(enc: Encoding, s: seq<Byte>, i: nat, w: Where, name: nat)
    requires i < |s| && (w.InName? || w.After?) && enc.byteType(0x78).Nmstrt?
    requires enc.byteType(s[i]).Quot? || enc.byteType(s[i]).Apos?
    requires var m := ValueRun(enc, s, i + 1, enc.byteType(s[i]));
             m.Go? && m.i < |s| && AllScanned(enc, s, Atts(enc, s, m.i, Gap, 0)) == true
    ensures AllScanned(enc, s, Atts(enc, s, i, w, name)) == true
  {
    var t := enc.byteType(s[i]);
    ValueEnds(enc, s, i + 1, t, i + 1, true);
    var r := ValueScan(enc, s, i + 1, t, i + 1, true).value;
    var a := Att(name, i + 1, r.0, r.1);
    assert Scanned(enc, s, a, t);
    AttsQuote(enc, s, i, w, name);
    ConsScanned(enc, s, a, t, Atts(enc, s, r.0 + 1, Gap, 0));
  }

  /** Where the attribute scan is in the name of the tag or behind it. */
  function TagWhere(st: TagState): Where { if st.TagGap? then Gap else Element }

  lemma TagMove(enc: Encoding, s: seq<Byte>, i: nat, st: TagState)
    requires i < |s| && !st.TagAtts?
    ensures var m := TagStep(enc, s, i, st);
            if m.Go? then
              Atts(enc, s, i, TagWhere(st), 0) ==
              if m.st.TagAtts? then Atts(enc, s, m.i, InName, i) else Atts(enc, s, m.i, TagWhere(m.st), 0)
            else m.t.Tok? ==> Atts(enc, s, i, TagWhere(st), 0) == Some([])
  {
  }

  lemma {:induction false} TagAttsFound(enc: Encoding, s: seq<Byte>, i: nat, st: TagState)
    requires i <= |s| && TagRun(enc, s, i, st).Tok? && !st.TagAtts? && enc.byteType(0x78).Nmstrt?
    ensures AllScanned(enc, s, Atts(enc, s, i, TagWhere(st), 0)) == true
    decreases |s| - i
  {
    var m := TagStep(enc, s, i, st);
    TagMove(enc, s, i, st);
    if m.Go? {
      if m.st.TagAtts? {
        AttsFound(enc, s, m.i, AttName(false), InName, i);
      } else {
        TagAttsFound(enc, s, m.i, m.st);
      }
    }
  }

  /** On a start tag or an empty-element tag that the tokenizer has accepted the attribute
      scan ends inside the tag, and finds values that the tokenizer has passed over. */
  lemma AttributesFound(enc: Encoding, s: seq<Byte>)
    requires |s| > 1 && enc.byteType(s[0]).Lt? && NmstrtStep(enc, s, 1).Skip? && ContentTok(enc, s).Tok?
    requires enc.byteType(0x78).Nmstrt?
    ensures AllScanned(enc, s, Atts(enc, s, 1, Element, 0))
  {
    var n := NmstrtStep(enc, s, 1).width;
    TagAttsFound(enc, s, 1 + n, TagName(false));
  }

  // ----- the scan itself

  /** What the scan knows between two bytes: outside a value, or inside one. */
  datatype At =
    | Out(w: Where, name: nat)
    | In(quote: ByteType, name: nat, value: nat, norm: bool)

  /** The attributes still to come. */
  function Rest(enc: Encoding, s: seq<Byte>, i: nat, at: At): Option<seq<Att>> {
    match at
    case Out(w, name) => Atts(enc, s, i, w, name)
    case In(quote, name, value, norm) =>
      match ValueScan(enc, s, i, quote, value, norm)
      case None => None
      case Some((end, n)) => Cons(Att(name, value, end, n), Atts(enc, s, end + 1, Gap, 0))
  }

  /** The array entry of the attribute that is being read. */
  ghost predicate Entry(a: Att, at: At) {
    match at
    case Out(w, name) => (w.InName? || w.After?) ==> a.name == name && a.normalized
    case In(_, name, value, norm) => a.name == name && a.valuePtr == value && a.normalized == norm
  }

  datatype ScanState = Other | InTheName | InValue

  ghost predicate Shows(state: ScanState, open: ByteType, at: At) {
    match at
    case Out(w, _) => if w.Element? || w.InName? then state.InTheName? else state.Other?
    case In(quote, _, _, _) => state.InValue? && open == quote
  }

  /** A byte outside values: the new state, and the position of a name that starts. */
  function OutStep(enc: Encoding, s: seq<Byte>, i: nat, at: At): At
    requires i < |s| && at.Out?
  {
    var t := enc.byteType(s[i]);
    if t.Quot? || t.Apos? then In(t, at.name, i + 1, true)
    else if IsSpace(t) then Out(if at.w.Element? then Gap else if at.w.InName? then After else at.w, at.name)
    else if StartsName(t) && at.w.Gap? then Out(InName, i)
    else at
  }

  lemma OutRest(enc: Encoding, s: seq<Byte>, i: nat, at: At)
    requires at.Out? && Rest(enc, s, i, at).Some?
    ensures i < |s|
    ensures var t := enc.byteType(s[i]);
            if t.Gt? || t.Sol? then Rest(enc, s, i, at) == Some([])
            else
              !t.Amp? && ((t.Quot? || t.Apos?) ==> !at.w.Element? && !at.w.Gap?) &&
              Rest(enc, s, i, at) == Rest(enc, s, i + CharLen(enc, s[i..]), OutStep(enc, s, i, at))
  {
    var t := enc.byteType(s[i]);
    if IsLead(t) {
      var n, next := i + LeadWidth(t), OutStep(enc, s, i, at);
      assert Atts(enc, s, i, at.w, at.name) == Atts(enc, s, n, next.w, next.name);
      assert n < |s|;
    }
  }

  lemma InRest(enc: Encoding, s: seq<Byte>, i: nat, at: At)
    requires at.In? && Rest(enc, s, i, at).Some?
    ensures i < |s| && (enc.byteType(s[i]).S? ==> i + 1 < |s|)
    ensures var t := enc.byteType(s[i]);
            if t == at.quote then Rest(enc, s, i, at) == Cons(Att(at.name, at.value, i, at.norm), Rest(enc, s, i + 1, Out(Gap, 0)))
            else
              Rest(enc, s, i, at) == Rest(enc, s, i + CharLen(enc, s[i..]),
                at.(norm := at.norm && !t.Amp? && !t.Cr? && !t.Lf? && !(t.S? && Resets(enc, s, i, at.quote, at.value))))
  {
  }

  /** The state behind byte `i`, and whether an attribute is complete there. */
  function Step(enc: Encoding, s: seq<Byte>, i: nat, at: At): At
    requires i < |s| && (at.In? && enc.byteType(s[i]).S? ==> i + 1 < |s|)
  {
    var t := enc.byteType(s[i]);
    if at.Out? then OutStep(enc, s, i, at)
    else if t == at.quote then Out(Gap, 0)
    else at.(norm := at.norm && !t.Amp? && !t.Cr? && !t.Lf? && !(t.S? && Resets(enc, s, i, at.quote, at.value)))
  }

  /** The attributes still to come are `left`. */
  ghost predicate Left(enc: Encoding, s: seq<Byte>, i: nat, at: At, left: seq<Att>) {
    Rest(enc, s, i, at) == Some(left) && (at.In? ==> at.quote.Quot? || at.quote.Apos?)
  }

  predicate StartsName(t: ByteType) { IsLead(t) || t.NonAscii? || t.Nmstrt? || t.Hex? }

  lemma LeadFits(enc: Encoding, s: seq<Byte>, i: nat, at: At)
    requires i < |s| && IsLead(enc.byteType(s[i])) && Rest(enc, s, i, at).Some?
    requires at.In? ==> at.quote.Quot? || at.quote.Apos?
    ensures i + LeadWidth(enc.byteType(s[i])) < |s|
  {
    var n := i + LeadWidth(enc.byteType(s[i]));
    if at.In? {
      assert ValueScan(enc, s, i, at.quote, at.value, at.norm) == ValueScan(enc, s, n, at.quote, at.value, at.norm);
    } else {
      assert Atts(enc, s, n, OutStep(enc, s, i, at).w, OutStep(enc, s, i, at).name).Some?;
    }
  }

  lemma LeftNext(enc: Encoding, s: seq<Byte>, i: nat, at: At, left: seq<Att>)
    requires Left(enc, s, i, at, left)
    ensures i < |s| && (at.In? && enc.byteType(s[i]).S? ==> i + 1 < |s|)
    ensures var t, next := enc.byteType(s[i]), i + CharLen(enc, s[i..]);
            next == i + (if IsLead(t) then LeadWidth(t) else 1) &&
            if at.Out? && (t.Gt? || t.Sol?) then left == []
            else if at.In? && t == at.quote then
              left != [] && left[0] == Att(at.name, at.value, i, at.norm) &&
              Left(enc, s, next, Step(enc, s, i, at), left[1..])
            else
              (at.Out? ==> !t.Amp? && ((t.Quot? || t.Apos?) ==> at.w.InName? || at.w.After?)) &&
              (at.Out? && StartsName(t) ==> !at.w.After?) &&
              Left(enc, s, next, Step(enc, s, i, at), left)
  {
    if at.Out? { OutRest(enc, s, i, at); } else { InRest(enc, s, i, at); }
    var t := enc.byteType(s[i]);
    if IsLead(t) {
      LeadFits(enc, s, i, at);
    }
  }

  /** `getAtts` on a tag: the number of attributes, and the first `attsMax` of them. */
  method GetAtts(enc: Encoding, s: seq<Byte>, attsMax: nat, atts: array<Att>) returns (nAtts: nat)
    requires Atts(enc, s, 1, Element, 0).Some? && attsMax <= atts.Length
    modifies atts
    ensures var all := Atts(enc, s, 1, Element, 0).value;
            nAtts == |all| && forall k | 0 <= k < nAtts && k < attsMax :: atts[k] == all[k]
  {
    ghost var all, at := Atts(enc, s, 1, Element, 0).value, Out(Element, 0);
    var state, open, ptr := InTheName, Quot, 1;
    nAtts := 0;
    while true
      invariant nAtts <= |all| && Shows(state, open, at) && Left(enc, s, ptr, at, all[nAtts..]) == true
      invariant forall k | 0 <= k < nAtts && k < attsMax :: atts[k] == all[k]
      invariant nAtts < attsMax ==> Entry(atts[nAtts], at)
      decreases |s| - ptr
    {
      LeftNext(enc, s, ptr, at, all[nAtts..]);
      var t := enc.byteType(s[ptr]);
      ghost var was := at;
      at := Step(enc, s, ptr, at);
      if StartsName(t) {
        if state.Other? {
          if nAtts < attsMax {
            atts[nAtts] := atts[nAtts].(name := ptr, normalized := true);
          }
          state := InTheName;
        }
      } else if t.Quot? || t.Apos? {
        if !state.InValue? {
          if nAtts < attsMax {
            atts[nAtts] := atts[nAtts].(valuePtr := ptr + 1);
          }
          state, open := InValue, t;
        } else if open == t {
          state := Other;
          if nAtts < attsMax {
            atts[nAtts] := atts[nAtts].(valueEnd := ptr);
          }
          nAtts := nAtts + 1;
        }
      } else if t.Amp? {
        if nAtts < attsMax {
          atts[nAtts] := atts[nAtts].(normalized := false);
        }
      } else if t.S? {
        if state.InTheName? {
          state := Other;
        } else if state.InValue? && nAtts < attsMax && atts[nAtts].normalized &&
                  (ptr == atts[nAtts].valuePtr || s[ptr] != SPACE || s[ptr + 1] == SPACE ||
                   enc.byteType(s[ptr + 1]) == open) {
          atts[nAtts] := atts[nAtts].(normalized := false);
        }
      } else if t.Cr? || t.Lf? {
        if state.InTheName? {
          state := Other;
        } else if state.InValue? && nAtts < attsMax {
          atts[nAtts] := atts[nAtts].(normalized := false);
        }
      } else if t.Gt? || t.Sol? {
        if !state.InValue? {
          return;
        }
      }
      ptr := ptr + if IsLead(t) then LeadWidth(t) else 1;
    }
  }

  // ----- a value that is flagged as normalized

  /** Characters that pass the validity test have no space behind their first byte. */
  ghost predicate Tails(enc: Encoding) {
    forall p | |p| > 1 && !enc.isInvalid(p) :: SPACE !in p[1..]
  }

  /** The facts about the tables that the proofs below use. */
  ghost predicate Tables(enc: Encoding) {
    forall p {:trigger TableAsked(p)} :: TableAsked(p) ==> AsciiTable(enc) && Tails(enc)
  }

  predicate TableAsked(p: int) { true }

  /** The UTF-8 tests have that property. */
  lemma Utf8Tails(p: seq<Byte>)
    requires |p| > 1 && |p| == Unicode.Width(p[0]) && !Unicode.Invalid(p)
    ensures SPACE !in p[1..]
  {
  }

  lemma {:induction false} FlagStays(enc: Encoding, s: seq<Byte>, i: nat, quote: ByteType, value: nat)
    requires ValueScan(enc, s, i, quote, value, false).Some?
    ensures !ValueScan(enc, s, i, quote, value, false).value.1
    decreases |s| - i
  {
    var t := enc.byteType(s[i]);
    if t != quote {
      FlagStays(enc, s, if IsLead(t) then i + LeadWidth(t) else i + 1, quote, value);
    }
  }

  /** From `i` on, the value in front of the quote at `end` is passed over and flagged. */
  ghost predicate Flagged(enc: Encoding, s: seq<Byte>, i: nat, quote: ByteType, value: nat, end: nat) {
    value <= i <= end < |s| && forall p {:trigger FlagAsked(p, i)} :: FlagAsked(p, i) ==>
      ValueRun(enc, s, i, quote) == Go(end + 1, AttClosed) &&
      ValueScan(enc, s, i, quote, value, true) == Some((end, true)) && (quote.Quot? || quote.Apos?)
  }

  predicate FlagAsked(p: int, i: nat) { true }

  lemma FlaggedFrom(enc: Encoding, s: seq<Byte>, i: nat, quote: ByteType, value: nat, end: nat)
    requires value <= i <= |s| && end < |s| && ValueRun(enc, s, i, quote) == Go(end + 1, AttClosed)
    requires ValueScan(enc, s, i, quote, value, true) == Some((end, true)) && (quote.Quot? || quote.Apos?)
    ensures Flagged(enc, s, i, quote, value, end)
  {
  }

  lemma FlaggedEnd(enc: Encoding, s: seq<Byte>, i: nat, quote: ByteType, value: nat, end: nat)
    requires Flagged(enc, s, i, quote, value, end)
    ensures enc.byteType(s[i]) == quote <==> i == end
  {
    assert FlagAsked(0, i);
  }

  /** The tokenizer's move over one character of a flagged value, which stays flagged. */
  lemma FlaggedMove(enc: Encoding, s: seq<Byte>, i: nat, quote: ByteType, value: nat, end: nat)
    requires Flagged(enc, s, i, quote, value, end) == true && i < end
    ensures var t, m := enc.byteType(s[i]), ValueStep(enc, s, i, quote);
            && m.Go? && m.i <= end && t != quote && !t.Lt? && !t.Amp? && !t.Cr? && !t.Lf?
            && (t.S? ==> m.i == i + 1 && !Resets(enc, s, i, quote, value))
            && m.i == i + (if IsLead(t) then LeadWidth(t) else 1)
            && (IsLead(t) ==> !enc.isInvalid(s[i..m.i]))
            && Flagged(enc, s, m.i, quote, value, end) == true
  {
    assert FlagAsked(0, i);
    var t := enc.byteType(s[i]);
    if t.Amp? || t.Cr? || t.Lf? || (t.S? && Resets(enc, s, i, quote, value)) {
      FlagStays(enc, s, i + 1, quote, value);
      assert false;
    }
  }

  /** One character of a flagged value: a single space between others, or plain. */
  lemma FlaggedStep(enc: Encoding, s: seq<Byte>, i: nat, quote: ByteType, value: nat, end: nat) returns (n: nat)
    requires Flagged(enc, s, i, quote, value, end) == true && Tables(enc) == true && i < end
    ensures 0 < n && i + n <= end && n == CharLen(enc, s[i..end]) && Flagged(enc, s, i + n, quote, value, end) == true
    ensures var t := enc.byteType(s[i]);
            if t.S? then n == 1 && s[i] == SPACE && i != value && s[i + 1] != SPACE && enc.byteType(s[i + 1]) != quote
            else !t.Lt? && !t.Amp? && !IsSpace(t) && SPACE !in s[i..i + n]
    ensures IsLead(enc.byteType(s[i])) ==> LeadWidth(enc.byteType(s[i])) <= end - i
  {
    FlaggedMove(enc, s, i, quote, value, end);
    assert TableAsked(0);
    n := ValueStep(enc, s, i, quote).i - i;
    if IsLead(enc.byteType(s[i])) {
      var p := s[i..i + n];
      assert p == [p[0]] + p[1..];
    } else {
      assert s[i..i + 1] == [s[i]];
    }
  }

  /** The first character of a value that is neither a reference nor more than a space. */
  lemma CharExpands(e: Env, open: set<seq<Byte>>, v: seq<Byte>, n: nat, rest: seq<Byte>)
    requires v != [] && n == CharLen(e.enc, v) && rest == v[n..]
    requires var t := e.enc.byteType(v[0]); if t.S? then v[0] == SPACE && n == 1 else !t.Lt? && !t.Amp? && !IsSpace(t)
    requires Expand(e, open, rest, true, true) == Ok(rest)
    ensures Expand(e, open, v, true, true) == Ok(v)
  {
    assert v == v[..n] + rest;
    if e.enc.byteType(v[0]).S? {
      assert v[..1] == [SPACE];
    }
  }

  /** A text that stands for itself. */
  ghost predicate Stands(e: Env, open: set<seq<Byte>>, v: seq<Byte>) {
    forall p {:trigger StandAsked(p, v)} :: StandAsked(p, v) ==> Expand(e, open, v, true, true) == Ok(v)
  }

  predicate StandAsked(p: int, v: seq<Byte>) { true }

  lemma CharStands(e: Env, open: set<seq<Byte>>, s: seq<Byte>, i: nat, n: nat, end: nat)
    requires 0 < n && i + n <= end <= |s| && n == CharLen(e.enc, s[i..end]) && Stands(e, open, s[i + n..end]) == true
    requires var t := e.enc.byteType(s[i]); if t.S? then s[i] == SPACE && n == 1 else !t.Lt? && !t.Amp? && !IsSpace(t)
    ensures Stands(e, open, s[i..end]) == true
  {
    var v, rest := s[i..end], s[i + n..end];
    assert StandAsked(0, rest);
    assert v[0] == s[i] && v[n..] == rest;
    CharExpands(e, open, v, n, rest);
  }

  /** A flagged value stands for itself. */
  lemma {:induction false} FlaggedText(e: Env, open: set<seq<Byte>>, s: seq<Byte>, i: nat, quote: ByteType, value: nat, end: nat)
    requires Flagged(e.enc, s, i, quote, value, end) == true && Tables(e.enc) == true
    ensures i <= end <= |s| && Stands(e, open, s[i..end]) == true
    decreases |s| - i
  {
    FlaggedEnd(e.enc, s, i, quote, value, end);
    if i < end {
      var n := FlaggedStep(e.enc, s, i, quote, value, end);
      FlaggedText(e, open, s, i + n, quote, value, end);
      CharStands(e, open, s, i, n, end);
    } else {
      NothingStands(e, open, s[i..end]);
    }
  }

  lemma NothingStands(e: Env, open: set<seq<Byte>>, v: seq<Byte>)
    requires v == []
    ensures Stands(e, open, v) == true
  {
  }

  /** Behind a space that a flagged value has there is neither a space nor the end. */
  ghost predicate NoSpaceBehind(enc: Encoding, s: seq<Byte>, i: nat, quote: ByteType, value: nat) {
    value <= i < |s| && (i == value || s[i - 1] != SPACE || (s[i] != SPACE && enc.byteType(s[i]) != quote))
  }

  lemma Cut(s: seq<Byte>, value: nat, i: nat, j: nat, end: nat)
    requires value <= i < j <= end <= |s|
    ensures s[i..end] == s[i..j] + s[j..end] && s[value..j] == s[value..i] + s[i..j]
    ensures s[i..j][j - i - 1] == s[j - 1] && (j == i + 1 ==> s[i..j] == [s[i]])
    ensures i > value ==> s[value..i][i - value - 1] == s[i - 1]
  {
  }

  lemma AppendTwice(p: seq<Byte>, c: seq<Byte>, rest: seq<Byte>)
    ensures (p + c) + rest == p + (c + rest)
  {
  }

  /** Storing `c`, which is stored as it is, and then `rest`. */
  lemma StoredThen(p: seq<Byte>, c: seq<Byte>, q: seq<Byte>, rest: seq<Byte>)
    requires q == p + c && PutAll(false, p, c) == q && PutAll(false, q, rest) == q + rest
    ensures PutAll(false, p, c + rest) == p + (c + rest)
  {
    calc {
      PutAll(false, p, c + rest);
      { PutAllConcat(false, p, c, rest); }
      PutAll(false, q, rest);
      q + rest;
      { AppendTwice(p, c, rest); }
      p + (c + rest);
    }
  }

  /** A character of a flagged value is stored as it is. */
  lemma CharStored(p: seq<Byte>, c: seq<Byte>)
    requires SPACE !in c || (c == [SPACE] && p != [] && p[|p| - 1] != SPACE)
    ensures PutAll(false, p, c) == p + c
  {
    if c == [SPACE] {
      assert c[1..] == [];
    } else {
      PutPlain(false, p, c);
    }
  }

  /** From `i` on the rest of the value is stored as it is. */
  ghost predicate Stored(s: seq<Byte>, value: nat, i: nat, end: nat) {
    value <= i <= end <= |s| && forall p {:trigger StoredAsked(p, i)} :: StoredAsked(p, i) ==>
      PutAll(false, s[value..i], s[i..end]) == s[value..i] + s[i..end]
  }

  predicate StoredAsked(p: int, i: nat) { true }

  lemma StoredEnd(s: seq<Byte>, value: nat, end: nat)
    requires value <= end <= |s|
    ensures Stored(s, value, end, end) == true
  {
    assert s[value..end] + [] == s[value..end];
  }

  /** One more character that is stored as it is, in front of more of them. */
  lemma StoredFrom(s: seq<Byte>, value: nat, i: nat, j: nat, end: nat)
    requires value <= i < j <= end && Stored(s, value, j, end) == true
    requires SPACE !in s[i..j] || (j == i + 1 && s[i] == SPACE && value < i && s[i - 1] != SPACE)
    ensures Stored(s, value, i, end) == true
  {
    assert StoredAsked(0, j);
    Cut(s, value, i, j, end);
    CharStored(s[value..i], s[i..j]);
    StoredThen(s[value..i], s[i..j], s[value..j], s[j..end]);
  }

  lemma LastOf(s: seq<Byte>, i: nat, j: nat)
    requires i < j <= |s| && SPACE !in s[i..j]
    ensures s[j - 1] != SPACE
  {
    assert s[j - 1] == s[i..j][j - 1 - i];
  }

  /** One pass over a flagged value stores all of it, and nothing is chopped. */
  lemma {:induction false} FlaggedStored(enc: Encoding, s: seq<Byte>, i: nat, quote: ByteType, value: nat, end: nat)
    requires Flagged(enc, s, i, quote, value, end) == true && Tables(enc) == true
    requires NoSpaceBehind(enc, s, i, quote, value)
    ensures Stored(s, value, i, end) == true
    ensures end == value || s[end - 1] != SPACE
    decreases |s| - i
  {
    FlaggedEnd(enc, s, i, quote, value, end);
    if i == end {
      StoredEnd(s, value, end);
    } else {
      var n := FlaggedStep(enc, s, i, quote, value, end);
      if !enc.byteType(s[i]).S? {
        LastOf(s, i, i + n);
      }
      FlaggedStored(enc, s, i + n, quote, value, end);
      StoredFrom(s, value, i, i + n, end);
    }
  }

  lemma Unchopped(isCdata: bool, v: seq<Byte>)
    requires PutAll(false, [], v) == v && (v == [] || v[|v| - 1] != SPACE)
    ensures Normalized(isCdata, v) == v
  {
    StoredIsNormalized(false, v);
  }

  lemma NothingChopped(isCdata: bool, s: seq<Byte>, i: nat, end: nat)
    requires Stored(s, i, i, end) == true
    requires end == i || s[end - 1] != SPACE
    ensures Normalized(isCdata, s[i..end]) == s[i..end]
  {
    var v := s[i..end];
    assert PutAll(false, [], v) == v by {
      assert StoredAsked(0, i) && s[i..i] == [] && [] + v == v;
    }
    Unchopped(isCdata, v);
  }

  lemma FlaggedFixed(e: Env, isCdata: bool, s: seq<Byte>, i: nat, quote: ByteType, end: nat)
    requires Flagged(e.enc, s, i, quote, i, end) && Tables(e.enc)
    ensures ByCode(e, isCdata, s[i..end]) == Ok(s[i..end])
  {
    FlaggedText(e, {}, s, i, quote, i, end);
    assert StandAsked(0, s[i..end]);
    FlaggedStored(e.enc, s, i, quote, i, end);
    NothingChopped(isCdata, s, i, end);
  }

  /** The fast path agrees with the slow one: what `getAtts` flags as normalized is a fixed
      point of normalization, whatever the declarations are, so that storing it as it is
      stores what `storeAttributeValue` would. */
  lemma FastPath(e: Env, isCdata: bool, s: seq<Byte>, a: Att, quote: ByteType)
    requires Scanned(e.enc, s, a, quote) && a.normalized && Tables(e.enc)
    ensures a.valuePtr <= a.valueEnd
    ensures ByCode(e, isCdata, s[a.valuePtr..a.valueEnd]) == Ok(s[a.valuePtr..a.valueEnd])
  {
    FlaggedFrom(e.enc, s, a.valuePtr, quote, a.valuePtr, a.valueEnd);
    FlaggedFixed(e, isCdata, s, a.valuePtr, quote, a.valueEnd);
  }

  // ----- storing the value of an attribute

  lemma SliceOfSlice(s: seq<Byte>, k: nat, v: seq<Byte>, i: nat, j: nat)
    requires k + |v| <= |s| && v == s[k..k + |v|] && i <= j <= |v|
    ensures v[i..j] == s[k + i..k + j]
  {
    forall m | 0 <= m < j - i
      ensures v[i..j][m] == s[k + i..k + j][m]
    {
      assert v[i + m] == s[k + (i + m)];
    }
  }

  lemma RefStepSlice(enc: Encoding, s: seq<Byte>, k: nat, v: seq<Byte>, i: nat, st: RefState)
    requires k + |v| <= |s| && v == s[k..k + |v|] && i < |v|
    requires var m := RefStep(enc, s, k + i, st); if m.Go? then m.i <= k + |v| else m.t.Tok?
    ensures var m := RefStep(enc, s, k + i, st);
            RefStep(enc, v, i, st) == if m.Go? then Go(m.i - k, m.st) else Stop(Tok(m.t.kind, m.t.next - k))
  {
    var t, m := enc.byteType(s[k + i]), RefStep(enc, s, k + i, st);
    assert s[k + i] == v[i];
    if IsLead(t) && m.Go? && m.i == k + i + LeadWidth(t) {
      SliceOfSlice(s, k, v, i, i + LeadWidth(t));
    }
  }

  /** The reference from `i` on ends in this token. */
  ghost predicate RefEnds(enc: Encoding, s: seq<Byte>, i: nat, st: RefState, kind: Kind, next: nat) {
    i < next <= |s| && forall p {:trigger RefAsked(p, i, st)} :: RefAsked(p, i, st) ==> RefRun(enc, s, i, st) == Tok(kind, next)
  }

  predicate RefAsked(p: int, i: nat, st: RefState) { true }

  lemma RefBack(enc: Encoding, s: seq<Byte>, i: nat, st: RefState, kind: Kind, next: nat)
    requires RefEnds(enc, s, i, st, kind, next) == true
    ensures i < |s|
    ensures var m := RefStep(enc, s, i, st);
            if m.Go? then i < m.i < next && RefEnds(enc, s, m.i, m.st, kind, next) == true else m.t == Tok(kind, next)
  {
    assert RefAsked(0, i, st);
  }

  lemma RefOn(enc: Encoding, s: seq<Byte>, i: nat, st: RefState, kind: Kind, next: nat)
    requires i < |s| && i < next <= |s|
    requires var m := RefStep(enc, s, i, st);
             if m.Go? then RefEnds(enc, s, m.i, m.st, kind, next) == true else m.t == Tok(kind, next)
    ensures RefEnds(enc, s, i, st, kind, next) == true
  {
    var m := RefStep(enc, s, i, st);
    if m.Go? {
      assert RefAsked(0, m.i, m.st);
    }
  }

  /** A reference reads the same in the slice of the tag that holds it. */
  lemma {:induction false} RefSlice(enc: Encoding, s: seq<Byte>, k: nat, v: seq<Byte>, i: nat, st: RefState, kind: Kind, next: nat)
    requires k + |v| <= |s| && v == s[k..k + |v|] && RefEnds(enc, s, k + i, st, kind, next) == true && next <= k + |v|
    ensures RefEnds(enc, v, i, st, kind, next - k) == true
    decreases |s| - i
  {
    RefBack(enc, s, k + i, st, kind, next);
    var m := RefStep(enc, s, k + i, st);
    if m.Go? {
      RefSlice(enc, s, k, v, m.i - k, m.st, kind, next);
    }
    RefStepSlice(enc, s, k, v, i, st);
    RefOn(enc, v, i, st, kind, next - k);
  }

  /** The same for a whole reference. */
  lemma RefSliced(enc: Encoding, s: seq<Byte>, i: nat, end: nat, t: Token)
    requires i < end <= |s| && RefRun(enc, s, i + 1, RefFirst) == t && t.Tok? && t.next <= end
    ensures RefRun(enc, s[i..end], 1, RefFirst) == Tok(t.kind, t.next - i)
  {
    var v := s[i..end];
    assert RefEnds(enc, s, i + 1, RefFirst, t.kind, t.next);
    RefSlice(enc, s, i, v, 1, RefFirst, t.kind, t.next);
    assert RefAsked(0, 1, RefFirst);
  }

  lemma CharWhole(enc: Encoding, v: seq<Byte>, n: nat)
    requires v != [] && n == CharLen(enc, v) && !enc.byteType(v[0]).Amp? && Tables(enc)
    requires IsLead(enc.byteType(v[0])) ==> n == LeadWidth(enc.byteType(v[0])) && !enc.isInvalid(v[..n])
    requires Whole(enc, v[n..])
    ensures Whole(enc, v)
  {
    assert TableAsked(0);
    assert v[..n][1..] == v[1..n];
  }

  lemma RefWhole(enc: Encoding, s: seq<Byte>, i: nat, end: nat, t: Token)
    requires i < end <= |s| && enc.byteType(s[i]).Amp? && RefRun(enc, s, i + 1, RefFirst) == t && t.Tok? && t.next <= end
    requires Whole(enc, s[t.next..end])
    ensures Whole(enc, s[i..end])
  {
    var v := s[i..end];
    RefSliced(enc, s, i, end, t);
    assert v[t.next - i..] == s[t.next..end] && v[0] == s[i];
  }

  lemma CharStepWhole(enc: Encoding, s: seq<Byte>, i: nat, quote: ByteType, end: nat)
    requires i < end <= |s| && enc.byteType(s[i]) != quote && !enc.byteType(s[i]).Amp? && Tables(enc) == true
    requires var m := ValueStep(enc, s, i, quote); m.Go? && m.i <= end && Whole(enc, s[m.i..end])
    ensures Whole(enc, s[i..end])
  {
    var m, v := ValueStep(enc, s, i, quote), s[i..end];
    assert v[m.i - i..] == s[m.i..end] && v[0] == s[i] && v[..m.i - i] == s[i..m.i];
    CharWhole(enc, v, m.i - i);
  }

  lemma StepWhole(enc: Encoding, s: seq<Byte>, i: nat, quote: ByteType, end: nat)
    requires i < end <= |s| && enc.byteType(s[i]) != quote && Tables(enc) == true
    requires var m := ValueStep(enc, s, i, quote); m.Go? && m.i <= end && Whole(enc, s[m.i..end])
    ensures Whole(enc, s[i..end])
  {
    if enc.byteType(s[i]).Amp? {
      RefWhole(enc, s, i, end, RefRun(enc, s, i + 1, RefFirst));
    } else {
      CharStepWhole(enc, s, i, quote, end);
    }
  }

  /** A value that the tokenizer has passed over can be normalized. */
  lemma {:induction false} ValueWhole(enc: Encoding, s: seq<Byte>, i: nat, quote: ByteType, end: nat)
    requires i <= |s| && ValueRun(enc, s, i, quote) == Go(end + 1, AttClosed) && end < |s|
    requires Tables(enc) && (quote.Quot? || quote.Apos?)
    ensures i <= end && Whole(enc, s[i..end])
    decreases |s| - i
  {
    if enc.byteType(s[i]) != quote {
      var m := ValueStep(enc, s, i, quote);
      ValueWhole(enc, s, m.i, quote, end);
      StepWhole(enc, s, i, quote, end);
    }
  }

  /** The value of one attribute in `storeAtts`: stored as it is if it is flagged, or else
      normalized; it comes to the same. */
  method StoreValue(p: Parser, isCdata: bool, s: seq<Byte>, a: Att, ghost quote: ByteType) returns (error: Option<AttValue.Error>)
    requires p.Valid() && Tables(p.enc) && Scanned(p.enc, s, a, quote) && p.pool == [] && p.Open() == {}
    modifies p`pool, p.generalEntities.Values
    ensures a.valuePtr <= a.valueEnd < |s|
    ensures match ByCode(p.View(false), isCdata, s[a.valuePtr..a.valueEnd])
            case Ok(v) => error == None && p.pool == v
            case Fail(e) => error == Some(e)
    ensures p.Open() == {}
  {
    ValueWhole(p.enc, s, a.valuePtr, quote, a.valueEnd);
    if !a.normalized {
      error := p.StoreAttributeValue(isCdata, false, s[a.valuePtr..a.valueEnd]);
    } else {
      FastPath(p.View(false), isCdata, s, a, quote);
      p.pool := p.pool + s[a.valuePtr..a.valueEnd];
      error := None;
    }
  }
}
