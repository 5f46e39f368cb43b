/**
 Why a span is an error. Every span that the lines give and that is coloured as an error
 is one of six things in the text, and a line without any of them has no error.
 */
module HighlightReasons {
  import opened Ascii
  import opened ConfigText
  import opened HighlightLines

  // ---------------------------------------------------------------- a line of the text

  /** What comes before the comment of a line: it begins after a newline and ends at one, at '#' or with the text. */
  ghost predicate Content(text: Text, from: nat, end: nat) {
    && from <= end <= |text| && (from > 0 ==> text[from - 1] == '\n' as int)
    && (end < |text| ==> text[end] == '\n' as int || text[end] == '#' as int)
    && Without(text, '\n' as int, from, end) && Without(text, '#' as int, from, end)
  }

  /** The section in force at the beginning of a line, going through the lines from `from` on. */
  ghost function SectionAt(text: Text, section: Field, from: nat, line: nat): Field
    requires from <= |text|
    decreases |text| - from
  {
    var end := FirstOf(text, '\n' as int, from, |text|);
    if line <= from || end == |text| then section
    else SectionAt(text, SectionAfter(text, section, from, FirstOf(text, '#' as int, from, end)), end + 1, line)
  }

  // ---------------------------------------------------------------- reasons

  /** A span is the trimmed part from `from` to `end`. */
  ghost predicate IsTrimmed(text: Text, s: Span, from: nat, end: nat) {
    && from <= s.start && s.len > 0 && s.start + s.len <= end <= |text|
    && Spaces(text, from, s.start) && Spaces(text, s.start + s.len, end)
    && !Space(text[s.start]) && !Space(text[s.start + s.len - 1])
  }

  /** A bracketed line that is no header. */
  ghost predicate NoHeader(text: Text, s: Span, from: nat, end: nat) {
    IsTrimmed(text, s, from, end) && text[s.start] == '[' as int
    && !CaselessSame(text[s.start..s.start + s.len], "[Interface]")
    && !CaselessSame(text[s.start..s.start + s.len], "[Peer]")
  }

  /** A name without an equals sign after it. */
  ghost predicate NoEquals(text: Text, s: Span, from: nat, end: nat) {
    IsTrimmed(text, s, from, end) && text[s.start] != '[' as int && Without(text, '=' as int, s.start + 1, end)
  }

  /** The first equals sign of a line, not counting one that is its first character. */
  ghost predicate Equals(text: Text, from: nat, end: nat, key: nat, equals: nat) {
    && from <= key < equals < end <= |text| && Spaces(text, from, key) && !Space(text[key])
    && text[key] != '[' as int && text[equals] == '=' as int && Without(text, '=' as int, key + 1, equals)
  }

  /** A name that is no field of the section. */
  ghost predicate NoField(text: Text, section: Field, s: Span, from: nat, end: nat) {
    exists equals: nat :: Equals(text, from, end, s.start, equals) && IsTrimmed(text, s, from, equals)
      && !Belongs(GetField(text[s.start..s.start + s.len]), section)
  }

  /** An equals sign without a value. */
  ghost predicate NoValue(text: Text, s: Span, from: nat, end: nat) {
    exists key: nat :: Equals(text, from, end, key, s.start) && s.len == 1 && Spaces(text, s.start + 1, end)
  }

  /** A comma with nothing after it. */
  ghost predicate NoEntry(text: Text, s: Span, end: nat) {
    s.start < end <= |text| && s.len == 1 && text[s.start] == ',' as int && Spaces(text, s.start + 1, end)
  }

  /** A value, or an entry of a list, that is not accepted for the field before its equals sign. */
  ghost predicate NotAccepted(text: Text, v: Validators, s: Span, from: nat, end: nat) {
    exists key: nat, equals: nat, name: nat ::
      && Equals(text, from, end, key, equals) && IsTrimmed(text, Span(HighlightField, key, name), key, equals)
      && equals < s.start && s.start + s.len <= end && Refused(text, v, GetField(text[key..key + name]), s)
  }

  ghost predicate Refused(text: Text, v: Validators, field: Field, s: Span) {
    s.start + s.len <= |text| &&
    match field
    case Endpoint => !ValidEndpoint(text, v, s.start, s.len)
    case Address | DNS | AllowedIPs => !AcceptsEntry(v, field, s.start, s.len)
    case _ => !Accepts(text, v, field, s.start, s.len)
  }

  ghost predicate Reason(text: Text, v: Validators, section: Field, s: Span, from: nat, end: nat) {
    || NoHeader(text, s, from, end) || NoEquals(text, s, from, end) || NoField(text, section, s, from, end)
    || NoValue(text, s, from, end) || NoEntry(text, s, end) || NotAccepted(text, v, s, from, end)
  }

  /** An error for one of the six reasons, in some line, with the section in force there. */
  ghost predicate Excused(text: Text, v: Validators, s: Span) {
    exists from: nat, end: nat ::
      Content(text, from, end) && Reason(text, v, SectionAt(text, Invalid, 0, from), s, from, end)
  }

  // ---------------------------------------------------------------- errors of values

  lemma {:induction false} ListErrors(text: Text, v: Validators, field: Field, from: nat, end: nat, k: nat)
    requires from <= end <= |text| && field in {Address, DNS, AllowedIPs} && k < |ListSpans(text, v, field, from, end)|
    requires ListSpans(text, v, field, from, end)[k].kind == HighlightError
    ensures var s := ListSpans(text, v, field, from, end)[k];
      from <= s.start && s.start + s.len <= end && (NoEntry(text, s, end) || Refused(text, v, field, s))
    decreases end - from
  {
    hide EntrySpans, ListSpans, FirstOf, Skip, Trim, AcceptsEntry;
    ListUnfolds(text, v, field, from, end);
    var comma := FirstOf(text, ',' as int, from, end);
    var start := Skip(text, from, comma);
    var stop := Trim(text, start, comma);
    var entry := EntrySpans(text, v, field, start, stop - start);
    if k < |entry| {
      EntryErrors(text, v, field, start, stop - start, k);
    } else if k > |entry| {
      ListErrors(text, v, field, comma + 1, end, k - |entry| - 1);
    }
  }

  lemma ListUnfolds(text: Text, v: Validators, field: Field, from: nat, end: nat)
    requires from <= end <= |text|
    ensures from == end ==> ListSpans(text, v, field, from, end) == []
    ensures from < end ==>
      var comma := FirstOf(text, ',' as int, from, end);
      var start := Skip(text, from, comma);
      var entry := EntrySpans(text, v, field, start, Trim(text, start, comma) - start);
      var list := ListSpans(text, v, field, from, end);
      if comma == end then list == entry
      else
        list == entry + [Span(if comma + 1 == end then HighlightError else HighlightDelimiter, comma, 1)]
          + ListSpans(text, v, field, comma + 1, end)
  {
    hide EntrySpans;
  }

  lemma EntryErrors(text: Text, v: Validators, field: Field, start: nat, len: nat, k: nat)
    requires start + len <= |text| && field in {Address, DNS, AllowedIPs}
    requires k < |EntrySpans(text, v, field, start, len)|
    requires EntrySpans(text, v, field, start, len)[k].kind == HighlightError
    ensures EntrySpans(text, v, field, start, len)[k] == Span(HighlightError, start, len)
    ensures !AcceptsEntry(v, field, start, len)
  {
  }

  lemma ValueErrors(text: Text, v: Validators, field: Field, start: nat, len: nat, k: nat)
    requires start + len <= |text| && k < |ValueSpans(text, v, field, start, len)|
    requires ValueSpans(text, v, field, start, len)[k].kind == HighlightError
    ensures var s := ValueSpans(text, v, field, start, len)[k];
      start <= s.start && s.start + s.len <= start + len
      && (NoEntry(text, s, start + len) || Refused(text, v, field, s))
  {
    hide ListSpans, EndpointSpans, ValidEndpoint;
    match field
    case Address | DNS | AllowedIPs =>
      ListErrors(text, v, field, start, start + len, k);
    case Endpoint =>
      EndpointErrors(text, v, start, len, k);
    case _ =>
  }

  lemma EndpointErrors(text: Text, v: Validators, start: nat, len: nat, k: nat)
    requires start + len <= |text| && k < |EndpointSpans(text, v, start, len)|
    requires EndpointSpans(text, v, start, len)[k].kind == HighlightError
    ensures EndpointSpans(text, v, start, len)[k] == Span(HighlightError, start, len)
    ensures !ValidEndpoint(text, v, start, len)
  {
    hide ValidEndpoint;
    ColonInside(text, v, start, len);
  }

  lemma ColonInside(text: Text, v: Validators, start: nat, len: nat)
    requires start + len <= |text|
    ensures ValidEndpoint(text, v, start, len) ==> LastOf(text, ':' as int, start, start + len) >= start
  {
    hide ValidBracketed;
    if ValidEndpoint(text, v, start, len) {
      var end := start + len;
      if text[start] == '[' as int {
        assert text[FirstOf(text, ']' as int, start + 1, end) + 1] == ':' as int;
      } else {
        assert text[FirstOf(text, ':' as int, start, end)] == ':' as int;
      }
    }
  }

  // ---------------------------------------------------------------- errors of lines

  lemma ContentErrors(text: Text, v: Validators, section: Field, from: nat, end: nat, k: nat)
    requires from <= end <= |text| && k < |ContentSpans(text, v, section, from, end)|
    requires ContentSpans(text, v, section, from, end)[k].kind == HighlightError
    ensures Reason(text, v, section, ContentSpans(text, v, section, from, end)[k], from, end)
  {
    hide SettingSpans, GetField, NoField, NoValue, NoEntry, NotAccepted;
    var start := Skip(text, from, end);
    var stop := Trim(text, start, end);
    if text[start] != '[' as int {
      var equals := FirstOf(text, '=' as int, start + 1, end);
      if equals < end {
        SettingErrors(text, v, section, from, start, equals, end, k);
      }
    }
  }

  lemma SettingErrors(text: Text, v: Validators, section: Field, from: nat, key: nat, equals: nat, end: nat, k: nat)
    requires Equals(text, from, end, key, equals) && k < |SettingSpans(text, v, section, key, equals, end)|
    requires SettingSpans(text, v, section, key, equals, end)[k].kind == HighlightError
    ensures Reason(text, v, section, SettingSpans(text, v, section, key, equals, end)[k], from, end)
  {
    hide ValueSpans, KeySpan, FieldBefore, NoHeader, NoEquals, NoField, NotAccepted, NoEntry, Refused, Skip, Trim;
    var s := SettingSpans(text, v, section, key, equals, end)[k];
    if k == 0 {
      KeyError(text, section, from, key, equals, end);
    } else if k == 1 {
      assert NoValue(text, s, from, end);
    } else {
      var value := Skip(text, equals + 1, end);
      var len := Trim(text, value, end) - value;
      ValueErrors(text, v, FieldBefore(text, key, equals), value, len, k - 2);
      ValueError(text, v, from, key, equals, end, value + len, s);
    }
  }

  lemma KeyError(text: Text, section: Field, from: nat, key: nat, equals: nat, end: nat)
    requires Equals(text, from, end, key, equals)
    ensures KeySpan(text, section, key, equals).kind == HighlightError ==>
      NoField(text, section, KeySpan(text, section, key, equals), from, end)
  {
    hide GetField, Belongs;
    var s := KeySpan(text, section, key, equals);
    assert IsTrimmed(text, s, from, equals);
  }

  lemma ValueError(text: Text, v: Validators, from: nat, key: nat, equals: nat, end: nat, stop: nat, s: Span)
    requires Equals(text, from, end, key, equals) && stop <= end && Spaces(text, stop, end)
    requires equals < s.start && s.start + s.len <= stop
    requires NoEntry(text, s, stop) || Refused(text, v, FieldBefore(text, key, equals), s)
    ensures NoEntry(text, s, end) || NotAccepted(text, v, s, from, end)
  {
    hide GetField, Refused;
    var name := Trim(text, key, equals) - key;
    assert IsTrimmed(text, Span(HighlightField, key, name), key, equals);
    assert FieldBefore(text, key, equals) == GetField(text[key..key + name]);
  }

  lemma {:induction false} AllErrors(text: Text, v: Validators, section: Field, from: nat, k: nat)
    returns (line: nat, end: nat)
    requires from <= |text| && (from > 0 ==> text[from - 1] == '\n' as int) && k < |AllSpans(text, v, section, from)|
    requires AllSpans(text, v, section, from)[k].kind == HighlightError
    ensures from <= line && Content(text, line, end)
    ensures Reason(text, v, SectionAt(text, section, from, line), AllSpans(text, v, section, from)[k], line, end)
    decreases |text| - from
  {
    hide ContentSpans, SectionAfter, Reason, AllSpans, LineSpans, FirstOf, SectionAt;
    AllUnfolds(text, v, section, from);
    var stop := FirstOf(text, '\n' as int, from, |text|);
    var comment := FirstOf(text, '#' as int, from, stop);
    var one := LineSpans(text, v, section, from, stop);
    OneLine(text, v, section, from, comment, stop);
    if k < |one| {
      line, end := from, comment;
      SectionHere(text, section, from);
      ContentErrors(text, v, section, from, comment, k);
    } else {
      line, end := AllErrors(text, v, SectionAfter(text, section, from, comment), stop + 1, k - |one|);
      SectionThere(text, section, from, line);
    }
  }

  lemma AllUnfolds(text: Text, v: Validators, section: Field, from: nat)
    requires from <= |text|
    ensures var end := FirstOf(text, '\n' as int, from, |text|);
      var one := LineSpans(text, v, section, from, end);
      var next := SectionAfter(text, section, from, FirstOf(text, '#' as int, from, end));
      AllSpans(text, v, section, from) == if end == |text| then one else one + AllSpans(text, v, next, end + 1)
  {
    hide LineSpans, SectionAfter;
  }

  lemma SectionHere(text: Text, section: Field, from: nat)
    requires from <= |text|
    ensures SectionAt(text, section, from, from) == section
  {
  }

  lemma SectionThere(text: Text, section: Field, from: nat, line: nat)
    requires from < line && from <= |text| && FirstOf(text, '\n' as int, from, |text|) < |text|
    ensures var end := FirstOf(text, '\n' as int, from, |text|);
      var next := SectionAfter(text, section, from, FirstOf(text, '#' as int, from, end));
      SectionAt(text, section, from, line) == SectionAt(text, next, end + 1, line)
  {
    hide SectionAfter;
  }

  lemma ErrorsExcused(text: Text, v: Validators)
    ensures var spans := AllSpans(text, v, Invalid, 0);
      forall k :: 0 <= k < |spans| && spans[k].kind == HighlightError ==> Excused(text, v, spans[k])
  {
    hide AllSpans, Content, Reason, SectionAt;
    var spans := AllSpans(text, v, Invalid, 0);
    forall k | 0 <= k < |spans| && spans[k].kind == HighlightError
      ensures Excused(text, v, spans[k])
    {
      var line, end := AllErrors(text, v, Invalid, 0, k);
    }
  }

  // ---------------------------------------------------------------- what is right is coloured so

  /** A name of the section and an accepted value get their colours; the value's is that of the field named. */
  lemma RightSetting(text: Text, v: Validators, section: Field, from: nat, end: nat, key: nat, name: nat, equals: nat,
                     value: nat, len: nat)
    requires Equals(text, from, end, key, equals) && IsTrimmed(text, Span(HighlightField, key, name), key, equals)
    requires equals < value && IsTrimmed(text, Span(HighlightField, value, len), equals + 1, end)
    ensures var field := GetField(text[key..key + name]);
      var spans := ContentSpans(text, v, section, from, end);
      |spans| >= 2 && spans[1] == Span(HighlightDelimiter, equals, 1)
      && spans[0] == Span(if Belongs(field, section) then HighlightField else HighlightError, key, name)
      && spans[2..] == ValueSpans(text, v, field, value, len)
  {
    hide GetField, ValueSpans, Belongs, Skip, Trim, ContentSpans;
    ContentIsSetting(text, v, section, from, key, equals, end);
    TrimIs(text, key, equals, key + name);
    SkipIs(text, equals + 1, end, value);
    TrimIs(text, value, end, value + len);
  }

  /** A header, a field of its section, and a value that is accepted: it is coloured as a port. */
  lemma Example(v: Validators, port: Text)
    requires port != [] && Plain(port) && !Space(port[0]) && !Space(port[|port| - 1]) && v.port(25, |port|)
    ensures AllSpans(Chars("[Interface]") + ['\n' as int] + Chars("ListenPort") + Chars(" = ") + port, v, Invalid, 0) ==
      [Span(HighlightSection, 0, 11), Span(HighlightField, 12, 10), Span(HighlightDelimiter, 23, 1),
       Span(HighlightPort, 25, |port|)]
  {
    hide AllSpans, Equals, IsTrimmed, Plain, Without, CaselessSame;
    var text := Chars("[Interface]") + ['\n' as int] + Chars("ListenPort") + Chars(" = ") + port;
    ExampleText(text, port);
    PortColoured(text, v, |port|);
  }

  lemma PortColoured(text: Text, v: Validators, len: nat)
    requires |text| == 25 + len && len > 0 && v.port(25, len) && text[11] == '\n' as int
    requires CaselessSame(text[12..22], "ListenPort")
    requires !Space(text[0]) && !Space(text[10]) && text[0] == '[' as int && CaselessSame(text[0..11], "[Interface]")
    requires Without(text, '\n' as int, 0, 11) && Without(text, '#' as int, 0, 11)
    requires Without(text, '\n' as int, 12, |text|) && Without(text, '#' as int, 12, |text|)
    requires Equals(text, 12, |text|, 12, 23) && IsTrimmed(text, Span(HighlightField, 12, 10), 12, 23)
    requires IsTrimmed(text, Span(HighlightField, 25, len), 24, |text|)
    ensures AllSpans(text, v, Invalid, 0) ==
      [Span(HighlightSection, 0, 11), Span(HighlightField, 12, 10), Span(HighlightDelimiter, 23, 1),
       Span(HighlightPort, 25, len)]
  {
    hide AllSpans, ContentSpans, SectionAfter, GetField, Equals, IsTrimmed, Without, CaselessSame;
    TwoLines(text, v, Invalid, 11);
    ExampleHeader(text, v);
    RightSetting(text, v, InterfaceSection, 12, |text|, 12, 10, 23, 25, len);
    FieldsExactly(text[12..22]);
    var spans := ContentSpans(text, v, InterfaceSection, 12, |text|);
    assert spans == [spans[0], spans[1]] + spans[2..];
  }

  /** A text of two lines without comments. */
  lemma TwoLines(text: Text, v: Validators, section: Field, newline: nat)
    requires newline < |text| && text[newline] == '\n' as int
    requires Without(text, '\n' as int, 0, newline) && Without(text, '#' as int, 0, newline)
    requires Without(text, '\n' as int, newline + 1, |text|) && Without(text, '#' as int, newline + 1, |text|)
    ensures AllSpans(text, v, section, 0) == ContentSpans(text, v, section, 0, newline)
      + ContentSpans(text, v, SectionAfter(text, section, 0, newline), newline + 1, |text|)
  {
    hide AllSpans, LineSpans, ContentSpans, FirstOf, SectionAfter;
    var n, next := |text|, SectionAfter(text, section, 0, newline);
    FirstIs(text, '\n' as int, 0, n, newline);
    FirstIs(text, '#' as int, 0, newline, newline);
    AllUnfolds(text, v, section, 0);
    OneLine(text, v, section, 0, newline, newline);
    FirstIs(text, '\n' as int, newline + 1, n, n);
    FirstIs(text, '#' as int, newline + 1, n, n);
    AllUnfolds(text, v, next, newline + 1);
    OneLine(text, v, next, newline + 1, n, n);
  }

  /** No newline and no '#'. */
  ghost predicate Plain(t: Text) {
    forall i :: 0 <= i < |t| ==> t[i] != '\n' as int && t[i] != '#' as int
  }

  lemma ExampleHeader(text: Text, v: Validators)
    requires |text| >= 11 && text[0] == '[' as int && !Space(text[0]) && !Space(text[10])
    requires CaselessSame(text[0..11], "[Interface]")
    ensures ContentSpans(text, v, Invalid, 0, 11) == [Span(HighlightSection, 0, 11)]
    ensures SectionAfter(text, Invalid, 0, 11) == InterfaceSection
  {
    hide Skip, Trim;
    SkipIs(text, 0, 11, 0);
    TrimIs(text, 0, 11, 11);
  }

  lemma ExampleText(text: Text, port: Text)
    requires text == Chars("[Interface]") + ['\n' as int] + Chars("ListenPort") + Chars(" = ") + port
    requires port != [] && Plain(port) && !Space(port[0]) && !Space(port[|port| - 1])
    ensures |text| == 25 + |port| && !Space(text[0]) && !Space(text[10]) && text[0] == '[' as int
    ensures CaselessSame(text[12..22], "ListenPort") && CaselessSame(text[0..11], "[Interface]")
    ensures text[11] == '\n' as int && Without(text, '\n' as int, 0, 11) && Without(text, '#' as int, 0, 11)
    ensures Without(text, '\n' as int, 12, |text|) && Without(text, '#' as int, 12, |text|)
    ensures Equals(text, 12, |text|, 12, 23) && IsTrimmed(text, Span(HighlightField, 12, 10), 12, 23)
    ensures IsTrimmed(text, Span(HighlightField, 25, |port|), 24, |text|)
  {
    hide CaselessSame, Chars;
    var header, name, sign := Chars("[Interface]"), Chars("ListenPort"), Chars(" = ");
    ExampleHead(header);
    ExampleName(name);
    ExampleSign(sign);
    assert text[0..11] == header && text[12..22] == name;
    assert forall k :: 0 <= k < 11 ==> text[k] == header[k];
    assert forall k :: 12 <= k < 22 ==> text[k] == name[k - 12];
    assert text[22] == sign[0] && text[23] == sign[1] && text[24] == sign[2];
    assert forall k :: 25 <= k < |text| ==> text[k] == port[k - 25];
  }

  lemma ExampleHead(header: Text)
    requires header == Chars("[Interface]")
    ensures |header| == 11 && header[0] == '[' as int && header[10] == ']' as int
    ensures Plain(header) && CaselessSame(header, "[Interface]")
  {
  }

  lemma ExampleName(name: Text)
    requires name == Chars("ListenPort")
    ensures |name| == 10 && Plain(name) && '=' as int !in name && name[0] != '[' as int
    ensures !Space(name[0]) && !Space(name[9]) && CaselessSame(name, "ListenPort")
  {
  }

  lemma ExampleSign(sign: Text)
    requires sign == Chars(" = ")
    ensures |sign| == 3 && sign[0] == ' ' as int && sign[1] == '=' as int && sign[2] == ' ' as int
  {
  }

  /** Every name of a field is that name in any case. */
  lemma FieldsExactly(s: Text)
    ensures GetField(s) == PrivateKey <==> CaselessSame(s, "PrivateKey")
    ensures GetField(s) == ListenPort <==> CaselessSame(s, "ListenPort")
    ensures GetField(s) == Address <==> CaselessSame(s, "Address")
    ensures GetField(s) == DNS <==> CaselessSame(s, "DNS")
    ensures GetField(s) == MTU <==> CaselessSame(s, "MTU")
    ensures GetField(s) == PublicKey <==> CaselessSame(s, "PublicKey")
    ensures GetField(s) == PresharedKey <==> CaselessSame(s, "PresharedKey")
    ensures GetField(s) == AllowedIPs <==> CaselessSame(s, "AllowedIPs")
    ensures GetField(s) == Endpoint <==> CaselessSame(s, "Endpoint")
    ensures GetField(s) == PersistentKeepalive <==> CaselessSame(s, "PersistentKeepalive")
    ensures GetField(s) == FwMark <==> CaselessSame(s, "FwMark")
    ensures GetField(s) == Table <==> CaselessSame(s, "Table")
    ensures GetField(s) == PreUp <==> CaselessSame(s, "PreUp")
    ensures GetField(s) == PostUp <==> CaselessSame(s, "PostUp")
    ensures GetField(s) == PreDown <==> CaselessSame(s, "PreDown")
    ensures GetField(s) == PostDown <==> CaselessSame(s, "PostDown")
    ensures GetField(s) == SaveConfig <==> CaselessSame(s, "SaveConfig")
  {
    hide CaselessSame;
    NameLength(s, "PrivateKey", 'P');
    NameLength(s, "ListenPort", 'L');
    NameLength(s, "Address", 'A');
    NameLength(s, "DNS", 'D');
    NameLength(s, "MTU", 'M');
    NameLength(s, "PublicKey", 'P');
    NameLength(s, "PresharedKey", 'P');
    NameLength(s, "AllowedIPs", 'A');
    NameLength(s, "Endpoint", 'E');
    NameLength(s, "PersistentKeepalive", 'P');
    NameLength(s, "FwMark", 'F');
    NameLength(s, "Table", 'T');
    NameLength(s, "PreUp", 'P');
    NameLength(s, "PostUp", 'P');
    NameLength(s, "PreDown", 'P');
    NameLength(s, "PostDown", 'P');
    NameLength(s, "SaveConfig", 'S');
  }

  /** Which names belong to which section, and what names a section. */
  lemma SectionsExactly(s: Text)
    ensures Belongs(GetField(s), InterfaceSection) <==>
      || CaselessSame(s, "PrivateKey") || CaselessSame(s, "ListenPort") || CaselessSame(s, "Address")
      || CaselessSame(s, "DNS") || CaselessSame(s, "MTU") || CaselessSame(s, "FwMark") || CaselessSame(s, "Table")
      || CaselessSame(s, "PreUp") || CaselessSame(s, "PostUp") || CaselessSame(s, "PreDown")
      || CaselessSame(s, "PostDown") || CaselessSame(s, "SaveConfig")
    ensures Belongs(GetField(s), PeerSection) <==>
      || CaselessSame(s, "PublicKey") || CaselessSame(s, "PresharedKey") || CaselessSame(s, "AllowedIPs")
      || CaselessSame(s, "Endpoint") || CaselessSame(s, "PersistentKeepalive")
    ensures GetSection(s) == InterfaceSection <==> CaselessSame(s, "[Interface]")
    ensures GetSection(s) == PeerSection <==> CaselessSame(s, "[Peer]")
  {
    hide CaselessSame, GetField;
    FieldsExactly(s);
    SectionLengths(s);
  }

  lemma SectionLengths(s: Text)
    ensures !(CaselessSame(s, "[Interface]") && CaselessSame(s, "[Peer]"))
  {
  }

  lemma NameLength(s: Text, name: string, first: char)
    requires name != [] && name[0] == first && 'A' <= first <= 'Z'
    ensures CaselessSame(s, name) ==> |s| == |name| && Upper(s[0]) == first as int
  {
  }
}
