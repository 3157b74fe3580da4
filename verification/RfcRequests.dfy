/**
 The requests of RFC 7230 for version 1 of HTTP: request line (section 3.1.1), header fields with optional white space
 (section 3.2) and line folding (section 3.2.4). picohttpparser accepts every one of them.
 */
module RfcRequests {
  import opened Bytes
  import opened Scanner
  import opened Message
  import opened Grammar

  /** A folded line: obs-fold and the text after it. */
  datatype Fold = Fold(indent: seq<byte>, text: seq<byte>)

  /** A header field, with the white space before and after its value. */
  datatype RfcField = RfcField(name: seq<byte>, before: seq<byte>, value: seq<byte>, after: seq<byte>, folds: seq<Fold>)

  datatype RfcRequest = RfcRequest(verb: seq<byte>, target: seq<byte>, minor: byte, fields: seq<RfcField>)

  // ---------- The grammar ----------

  // The bytes of the standard are written out, and not taken from the classes the parser tests for.

  const LINE_END: seq<byte> := "\r\n"
  const HTTP_1: seq<byte> := "HTTP/1."

  /** SP or HTAB. */
  predicate IsOws(c: byte) {
    c == '\U{20}' || c == '\U{09}'
  }

  predicate IsToken(t: seq<byte>) {
    t != [] && forall k | 0 <= k < |t| :: IsTchar(t[k])
  }

  /** VCHAR of RFC 5234. */
  predicate IsVchar(c: byte) {
    '!' <= c <= '~'
  }

  /** field-vchar, or a blank between them. */
  predicate IsFieldByte(c: byte) {
    IsVchar(c) || c >= '\U{80}' || IsOws(c)
  }

  predicate AllField(t: seq<byte>) {
    forall k | 0 <= k < |t| :: IsFieldByte(t[k])
  }

  predicate AllBlank(t: seq<byte>) {
    forall k | 0 <= k < |t| :: IsOws(t[k])
  }

  predicate WfFold(f: Fold) {
    f.indent != [] && AllBlank(f.indent) && AllField(f.text)
  }

  /** A value neither starts nor ends with white space; that of an empty value is all before it. */
  predicate WfField(f: RfcField) {
    && IsToken(f.name) && AllBlank(f.before) && AllBlank(f.after) && AllField(f.value)
    && (if f.value == [] then f.after == [] else !IsOws(f.value[0]) && !IsOws(f.value[|f.value| - 1]))
    && forall k | 0 <= k < |f.folds| :: WfFold(f.folds[k])
  }

  predicate WfRfc(r: RfcRequest) {
    && IsToken(r.verb) && r.target != [] && (forall k | 0 <= k < |r.target| :: IsVchar(r.target[k]))
    && '0' <= r.minor <= '9'
    && forall k | 0 <= k < |r.fields| :: WfField(r.fields[k])
  }

  function PrintFolds(fs: seq<Fold>): seq<byte> {
    if fs == [] then [] else fs[0].indent + (fs[0].text + (LINE_END + PrintFolds(fs[1..])))
  }

  function PrintField(f: RfcField): seq<byte> {
    f.name + ([':'] + (f.before + (f.value + (f.after + LINE_END)))) + PrintFolds(f.folds)
  }

  function PrintFields(fs: seq<RfcField>): seq<byte> {
    if fs == [] then [] else PrintField(fs[0]) + PrintFields(fs[1..])
  }

  function PrintRfc(r: RfcRequest): seq<byte> {
    r.verb + (" " + (r.target + (" " + (HTTP_1 + ([r.minor] + LINE_END))))) + (PrintFields(r.fields) + LINE_END)
  }

  // ---------- The same text for the parser ----------

  function FoldLines(fs: seq<Fold>): seq<HeaderText> {
    if fs == [] then [] else [Continuation(fs[0].indent + fs[0].text, CrLf)] + FoldLines(fs[1..])
  }

  /** The parser does not cut white space after a value off. */
  function FieldLines(f: RfcField): seq<HeaderText> {
    [Field(f.name, f.before, f.value + f.after, CrLf)] + FoldLines(f.folds)
  }

  function Lines(fs: seq<RfcField>): seq<HeaderText> {
    if fs == [] then [] else FieldLines(fs[0]) + Lines(fs[1..])
  }

  function ToRequest(r: RfcRequest): RequestText {
    RequestText(None, r.verb, r.target, [r.minor], CrLf, BlockText(Lines(r.fields), CrLf))
  }

  lemma {:induction false} PrintLinesConcat(a: seq<HeaderText>, b: seq<HeaderText>)
    ensures PrintLines(a + b) == PrintLines(a) + PrintLines(b)
    decreases |a|
  {
    hide PrintHeader;
    if a == [] {
      assert a + b == b;
    } else {
      assert (a + b)[1..] == a[1..] + b;
      PrintLinesConcat(a[1..], b);
      assert PrintHeader(a[0]) + (PrintLines(a[1..]) + PrintLines(b))
          == PrintHeader(a[0]) + PrintLines(a[1..]) + PrintLines(b);
    }
  }

  lemma PrintOne(h: HeaderText)
    ensures PrintLines([h]) == PrintHeader(h)
  {
    hide PrintHeader;
    assert [h][1..] == [];
    assert PrintHeader(h) + [] == PrintHeader(h);
  }

  lemma {:induction false} FoldsPrint(fs: seq<Fold>)
    ensures PrintLines(FoldLines(fs)) == PrintFolds(fs)
    decreases |fs|
  {
    if fs != [] {
      var h := Continuation(fs[0].indent + fs[0].text, CrLf);
      assert FoldLines(fs)[1..] == FoldLines(fs[1..]);
      FoldsPrint(fs[1..]);
      var rest := PrintFolds(fs[1..]);
      assert fs[0].indent + fs[0].text + LINE_END + rest == fs[0].indent + (fs[0].text + (LINE_END + rest));
    }
  }

  lemma FieldPrint(f: RfcField)
    ensures PrintLines(FieldLines(f)) == PrintField(f)
  {
    hide PrintFolds, FoldLines, PrintLines;
    var h := Field(f.name, f.before, f.value + f.after, CrLf);
    PrintLinesConcat([h], FoldLines(f.folds));
    PrintOne(h);
    FoldsPrint(f.folds);
    assert f.value + f.after + LINE_END == f.value + (f.after + LINE_END);
  }

  lemma {:induction false} FieldsPrint(fs: seq<RfcField>)
    ensures PrintLines(Lines(fs)) == PrintFields(fs)
    decreases |fs|
  {
    hide PrintField, FieldLines, PrintLines;
    if fs == [] {
      NoLines();
    } else {
      PrintLinesConcat(FieldLines(fs[0]), Lines(fs[1..]));
      FieldPrint(fs[0]);
      FieldsPrint(fs[1..]);
    }
  }

  lemma NoLines()
    ensures PrintLines([]) == []
  {
  }

  lemma RequestPrint(r: RfcRequest)
    ensures PrintRequest(ToRequest(r)) == PrintRfc(r)
  {
    hide PrintLines, PrintFields, Lines;
    FieldsPrint(r.fields);
    assert [SP] == " " && VERSION == HTTP_1;
    var line := r.verb + (" " + (r.target + (" " + (HTTP_1 + ([r.minor] + LINE_END)))));
    assert [] + line == line;
  }

  // ---------- It is well formed for the parser ----------

  lemma FieldBytes(t: seq<byte>)
    ensures AllField(t) ==> AllIn(t, ValueByte)
    ensures AllBlank(t) ==> AllField(t) && AllIn(t, BlankByte)
  {
  }

  lemma TokenBytes(t: seq<byte>)
    requires IsToken(t)
    ensures AllIn(t, TokenByte) && AllIn(t, NameByte) && IsTokenChar(t[0])
  {
    forall k | 0 <= k < |t| ensures In(t[k], TokenByte) && In(t[k], NameByte) && IsTokenChar(t[k]) {
      assert IsTchar(t[k]);
      TokenCharRfc(t[k]);
    }
  }

  lemma FieldWf(f: RfcField)
    requires WfField(f)
    ensures forall first :: WfHeader(Field(f.name, f.before, f.value + f.after, CrLf), first)
  {
    hide IsTokenChar, IsTchar;
    TokenBytes(f.name);
    FieldBytes(f.before);
    FieldBytes(f.value);
    FieldBytes(f.after);
    assert f.value != [] ==> (f.value + f.after)[0] == f.value[0];
  }

  lemma FoldWf(f: Fold)
    requires WfFold(f)
    ensures WfHeader(Continuation(f.indent + f.text, CrLf), false)
  {
    FieldBytes(f.indent);
    FieldBytes(f.text);
    assert (f.indent + f.text)[0] == f.indent[0];
  }

  lemma {:induction false} FoldsWf(fs: seq<Fold>, more: seq<HeaderText>)
    requires (forall k | 0 <= k < |fs| :: WfFold(fs[k])) && WfLines(more, false)
    ensures WfLines(FoldLines(fs) + more, false)
    decreases |fs|
  {
    hide WfFold, WfHeader;
    if fs == [] {
      assert FoldLines(fs) + more == more;
    } else {
      FoldWf(fs[0]);
      FoldsWf(fs[1..], more);
      assert (FoldLines(fs) + more)[1..] == FoldLines(fs[1..]) + more;
    }
  }

  lemma WfLinesStep(h: HeaderText, more: seq<HeaderText>, first: bool)
    requires WfHeader(h, first) && WfLines(more, false)
    ensures WfLines([h] + more, first)
  {
    hide WfHeader;
    assert ([h] + more)[1..] == more;
  }

  lemma {:induction false} LinesWf(fs: seq<RfcField>, first: bool)
    requires forall k | 0 <= k < |fs| :: WfField(fs[k])
    ensures WfLines(Lines(fs), first)
    decreases |fs|
  {
    hide WfFold, WfHeader, WfLines, FoldLines;
    if fs == [] {
      NoLinesWf(first);
    } else {
      FieldWf(fs[0]);
      LinesWf(fs[1..], false);
      FoldsWf(fs[0].folds, Lines(fs[1..]));
      var h := Field(fs[0].name, fs[0].before, fs[0].value + fs[0].after, CrLf);
      WfLinesStep(h, FoldLines(fs[0].folds) + Lines(fs[1..]), first);
      assert Lines(fs) == [h] + (FoldLines(fs[0].folds) + Lines(fs[1..]));
    }
  }

  lemma NoLinesWf(first: bool)
    ensures WfLines([], first)
  {
  }

  lemma RequestWf(r: RfcRequest, cap: nat)
    requires WfRfc(r) && |Lines(r.fields)| <= cap
    ensures WfRequest(ToRequest(r), cap)
  {
    hide WfField, Lines, IsTchar;
    TokenBytes(r.verb);
    forall k | 0 <= k < |r.target| ensures In(r.target[k], TokenByte) {
      assert IsVchar(r.target[k]);
    }
    LinesWf(r.fields, true);
  }

  /**
   Every request of the standard, whatever follows it, is accepted if the array has an entry for each of its header
   lines. Method, target, minor version and header lines are reported as they are; the white space after a value is
   reported as part of it.
   */
  lemma RfcRequestAccepted(r: RfcRequest, rest: seq<byte>, cap: nat)
    requires WfRfc(r) && |Lines(r.fields)| <= cap
    ensures var s := PrintRfc(r) + rest; var p := ParseRequest(s, cap);
            && p.end.Done? && p.end.pos == |PrintRfc(r)|
            && Holds(s, p.end.value.verb, r.verb) && Holds(s, p.end.value.path, r.target)
            && p.end.value.minor == r.minor as int - '0' as int
            && |p.headers| == |Lines(r.fields)|
            && forall k | 0 <= k < |p.headers| :: Carries(s, p.headers[k], Lines(r.fields)[k])
  {
    hide PrintRequest, PrintRfc, ParseRequest, Carries, Holds, Lines, WfRfc, WfRequest;
    RequestPrint(r);
    RequestWf(r, cap);
    RequestRoundTrip(ToRequest(r), rest, cap);
    MinorValue(r.minor);
  }

  lemma MinorValue(c: byte)
    ensures IsDigit(c) ==> AllIn([c], DigitByte) && DecValue([c]) == c as int - '0' as int
  {
    var t := [c];
    if IsDigit(c) {
      assert t[..0] == [] && t[0] == c;
    }
  }

  // ---------- What an accepted request is made of ----------

  /** A byte of a method or a target: no control byte and no space. */
  predicate VisibleCode(c: byte) {
    0x20 < c as int && c as int != 0x7F
  }

  /** A byte of a value: a tab, but no other control byte. */
  predicate ValueCode(c: byte) {
    c as int == 9 || (0x20 <= c as int && c as int != 0x7F)
  }

  /** A byte of a name behind the first. */
  predicate NameCode(c: byte) {
    0x20 <= c as int < 0x80 && c as int != 0x3A
  }

  predicate OwsCode(c: byte) {
    c as int == 0x20 || c as int == 9
  }

  /** The classes of the parser, by the codes of their bytes. */
  lemma ClassCodes(c: byte)
    ensures In(c, TokenByte) <==> VisibleCode(c)
    ensures In(c, ValueByte) <==> ValueCode(c)
    ensures In(c, NameByte) <==> NameCode(c)
    ensures In(c, BlankByte) <==> OwsCode(c)
    ensures In(c, DigitByte) <==> 0x30 <= c as int <= 0x39
    ensures IsOws(c) <==> OwsCode(c)
    ensures IsLineEnd(c) <==> c as int == 13 || c as int == 10
  {
  }

  /** A header line is a continuation exactly when it is not the first and starts with SP or HTAB. */
  lemma ContinuationExactly(s: seq<byte>, i: nat, first: bool)
    requires i < |s| && HeaderLine(s, i, first).Done?
    ensures HeaderLine(s, i, first).value.name.None? <==> !first && OwsCode(s[i])
  {
    hide TokenToEol, FieldValue;
    ClassCodes(s[i]);
  }

  ghost predicate AllCodes(s: seq<byte>, f: Slice, p: byte -> bool) {
    f.from <= f.to <= |s| && forall m | f.from <= m < f.to :: p(s[m])
  }

  /** The bytes of one reported header entry. */
  ghost predicate EntryBytes(s: seq<byte>, h: Header, first: bool) {
    && AllCodes(s, h.value, ValueCode)
    && (match h.name
        case Some(name) =>
          && AllCodes(s, name, NameCode) && name.from < name.to
          && (IsTchar(s[name.from]) || s[name.from] == '"')
          && (h.value.from < h.value.to ==> !OwsCode(s[h.value.from]))
        case None => !first && h.value.from < h.value.to && OwsCode(s[h.value.from]))
  }

  lemma CarriedBytes(s: seq<byte>, h: Header, t: HeaderText, first: bool)
    requires Carries(s, h, t) && WfHeader(t, first)
    ensures EntryBytes(s, h, first)
  {
    forall c: byte
      ensures In(c, ValueByte) <==> ValueCode(c)
      ensures In(c, NameByte) <==> NameCode(c)
      ensures IsBlank(c) <==> OwsCode(c)
    {
      ClassCodes(c);
    }
    if t.Field? {
      TokenCharRfc(t.name[0]);
      assert forall m | h.name.value.from <= m < h.name.value.to :: s[m] == t.name[m - h.name.value.from];
      assert forall m | h.value.from <= m < h.value.to :: s[m] == t.value[m - h.value.from];
    } else {
      assert forall m | h.value.from <= m < h.value.to :: s[m] == t.line[m - h.value.from];
    }
  }

  lemma HeldBytes(s: seq<byte>, f: Slice, t: seq<byte>)
    requires Holds(s, f, t) && AllIn(t, TokenByte)
    ensures AllCodes(s, f, VisibleCode)
  {
    forall m | f.from <= m < f.to ensures VisibleCode(s[m]) {
      assert s[m] == t[m - f.from];
      ClassCodes(t[m - f.from]);
    }
  }

  lemma {:induction false} LineWf(lines: seq<HeaderText>, first: bool, k: nat)
    requires WfLines(lines, first) && k < |lines|
    ensures WfHeader(lines[k], first && k == 0)
    decreases |lines|
  {
    hide WfHeader;
    if k > 0 {
      LineWf(lines[1..], false, k - 1);
    }
  }

  /**
   In a request that is accepted there is no control byte but the tab in values: none in the method, the target and the
   names. The first header line is not a continuation; a line without a name starts with SP or HTAB, and the value of
   one with a name starts with neither.
   */
  lemma AcceptedBytes(s: seq<byte>, cap: nat)
    requires ParseRequest(s, cap).end.Done?
    ensures var p := ParseRequest(s, cap);
            && AllCodes(s, p.end.value.verb, VisibleCode) && AllCodes(s, p.end.value.path, VisibleCode)
            && forall k | 0 <= k < |p.headers| :: EntryBytes(s, p.headers[k], k == 0)
  {
    hide ParseRequest, PrintRequest, Carries, EntryBytes, AllCodes, Holds, LineOf, Entries, WfLines, AllIn;
    var a := RequestSound(s, cap);
    var n := |PrintRequest(a)|;
    AtFront(s, PrintRequest(a));
    RequestRoundTrip(a, s[n..], cap);
    var p := ParseRequest(s, cap);
    HeldBytes(s, p.end.value.verb, a.verb);
    HeldBytes(s, p.end.value.path, a.path);
    forall k | 0 <= k < |p.headers| ensures EntryBytes(s, p.headers[k], k == 0) {
      LineWf(a.block.lines, true, k);
      CarriedBytes(s, p.headers[k], a.block.lines[k], k == 0);
    }
  }

  lemma AtFront(s: seq<byte>, t: seq<byte>)
    requires At(s, 0, t)
    ensures |t| <= |s| && s == t + s[|t|..]
  {
  }
}
