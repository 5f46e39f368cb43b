/**
 What the highlighter is to produce, line by line: a line is what comes before its first
 '#' and a comment; what comes before is a header, or a name, an equals sign and a value.
 The program makes one pass over the characters instead.
 */
module HighlightLines {
  import opened Ascii
  import opened KeyCodec

  datatype Kind =
    | HighlightSection | HighlightField
    | HighlightPrivateKey | HighlightPublicKey | HighlightPresharedKey
    | HighlightIP | HighlightCidr | HighlightHost | HighlightPort | HighlightMTU | HighlightKeepalive
    | HighlightComment | HighlightDelimiter
    | HighlightTable | HighlightFwMark | HighlightSaveConfig | HighlightCmd
    | HighlightError | HighlightEnd

  datatype Span = Span(kind: Kind, start: nat, len: nat)

  datatype Field =
    | InterfaceSection | PrivateKey | ListenPort | Address | DNS | MTU
    | FwMark | Table | PreUp | PostUp | PreDown | PostDown | SaveConfig
    | PeerSection | PublicKey | PresharedKey | AllowedIPs | Endpoint | PersistentKeepalive
    | Invalid

  /** What the leaf validators answer for the part of the text at a start, of a length. */
  datatype Validators = Validators(
    ipv4: (nat, nat) -> bool,
    ipv6: (nat, nat) -> bool,
    hostname: (nat, nat) -> bool,
    scope: (nat, nat) -> bool,
    network: (nat, nat) -> bool,
    port: (nat, nat) -> bool,
    mtu: (nat, nat) -> bool,
    keepalive: (nat, nat) -> bool,
    fwmark: (nat, nat) -> bool,
    table: (nat, nat) -> bool,
    saveConfig: (nat, nat) -> bool)

  const SIZE_MAX: nat := 0xFFFF_FFFF_FFFF_FFFF

  predicate Space(c: cchar) { c == ' ' as int || c == '\t' as int }

  predicate Blank(c: cchar) { Space(c) || c == '\n' as int }

  // ---------------------------------------------------------------- names

  function GetField(s: Text): Field {
    if CaselessSame(s, "PrivateKey") then PrivateKey
    else if CaselessSame(s, "ListenPort") then ListenPort
    else if CaselessSame(s, "Address") then Address
    else if CaselessSame(s, "DNS") then DNS
    else if CaselessSame(s, "MTU") then MTU
    else if CaselessSame(s, "PublicKey") then PublicKey
    else if CaselessSame(s, "PresharedKey") then PresharedKey
    else if CaselessSame(s, "AllowedIPs") then AllowedIPs
    else if CaselessSame(s, "Endpoint") then Endpoint
    else if CaselessSame(s, "PersistentKeepalive") then PersistentKeepalive
    else if CaselessSame(s, "FwMark") then FwMark
    else if CaselessSame(s, "Table") then Table
    else if CaselessSame(s, "PreUp") then PreUp
    else if CaselessSame(s, "PostUp") then PostUp
    else if CaselessSame(s, "PreDown") then PreDown
    else if CaselessSame(s, "PostDown") then PostDown
    else if CaselessSame(s, "SaveConfig") then SaveConfig
    else Invalid
  }

  function SectionFor(f: Field): Field {
    match f
    case PrivateKey | ListenPort | Address | DNS | MTU | FwMark | Table
      | PreUp | PostUp | PreDown | PostDown | SaveConfig => InterfaceSection
    case PublicKey | PresharedKey | AllowedIPs | Endpoint | PersistentKeepalive => PeerSection
    case _ => Invalid
  }

  function GetSection(s: Text): Field {
    if CaselessSame(s, "[Peer]") then PeerSection
    else if CaselessSame(s, "[Interface]") then InterfaceSection
    else Invalid
  }

  // ---------------------------------------------------------------- parts of a text

  /** The first position of a character in a part of the text, or the end of that part. */
  function FirstOf(text: Text, c: cchar, from: nat, end: nat): (i: nat)
    requires from <= end <= |text|
    ensures from <= i <= end && (i < end ==> text[i] == c)
    ensures forall k :: from <= k < i ==> text[k] != c
    decreases end - from
  {
    if from == end || text[from] == c then from else FirstOf(text, c, from + 1, end)
  }

  lemma FirstIs(text: Text, c: cchar, from: nat, end: nat, i: nat)
    requires from <= i <= end <= |text| && (i < end ==> text[i] == c) && forall k :: from <= k < i ==> text[k] != c
    ensures FirstOf(text, c, from, end) == i
  {
    var f := FirstOf(text, c, from, end);
    assert f < end ==> text[f] == c;
  }

  /** The last position of a character in a part of the text, or one before that part. */
  function LastOf(text: Text, c: cchar, from: nat, end: nat): (i: int)
    requires from <= end <= |text|
    ensures from - 1 <= i < end && (i >= from ==> text[i] == c)
    ensures forall k :: i < k < end ==> text[k] != c
    decreases end - from
  {
    if from == end then from - 1 else if text[end - 1] == c then end - 1 else LastOf(text, c, from, end - 1)
  }

  lemma LastIs(text: Text, c: cchar, from: nat, end: nat, i: nat)
    requires from <= i < end <= |text| && text[i] == c && forall k :: i < k < end ==> text[k] != c
    ensures LastOf(text, c, from, end) == i
  {
    var f := LastOf(text, c, from, end);
    assert f >= from ==> text[f] == c;
  }

  /** The first character that is no space or tab. */
  function Skip(text: Text, from: nat, end: nat): (i: nat)
    requires from <= end <= |text|
    ensures from <= i <= end && Spaces(text, from, i) && (i < end ==> !Space(text[i]))
    decreases end - from
  {
    if from == end || !Space(text[from]) then from else Skip(text, from + 1, end)
  }

  /** The end without the spaces and tabs before it. */
  function Trim(text: Text, from: nat, end: nat): (i: nat)
    requires from <= end <= |text|
    ensures from <= i <= end && Spaces(text, i, end) && (i > from ==> !Space(text[i - 1]))
    decreases end - from
  {
    if from == end || !Space(text[end - 1]) then end else Trim(text, from, end - 1)
  }

  predicate Spaces(text: Text, from: nat, end: nat) {
    end <= |text| && forall k :: from <= k < end ==> Space(text[k])
  }

  lemma SkipIs(text: Text, from: nat, end: nat, i: nat)
    requires from <= i <= end <= |text| && Spaces(text, from, i) && (i < end ==> !Space(text[i]))
    ensures Skip(text, from, end) == i
  {
    var s := Skip(text, from, end);
    assert s < end ==> !Space(text[s]);
  }

  lemma TrimIs(text: Text, from: nat, end: nat, i: nat)
    requires from <= i <= end <= |text| && Spaces(text, i, end) && (i > from ==> !Space(text[i - 1]))
    ensures Trim(text, from, end) == i
  {
    var s := Trim(text, from, end);
    assert s > from ==> !Space(text[s - 1]);
  }

  // ---------------------------------------------------------------- values

  /** What stands between brackets: an IPv6 address, or one with a scope after a single percent sign. */
  predicate ValidBracketed(text: Text, v: Validators, from: nat, close: nat)
    requires from <= close <= |text|
  {
    var percent := FirstOf(text, '%' as int, from, close);
    if percent == close then v.ipv6(from, close - from)
    else
      && v.ipv6(from, percent - from)
      && FirstOf(text, '%' as int, percent + 1, close) == close && v.scope(percent + 1, close - percent - 1)
  }

  /** An endpoint: a bracketed address, or an IPv4 address or host name, then a colon and a port. */
  predicate ValidEndpoint(text: Text, v: Validators, start: nat, len: nat)
    requires start + len <= |text|
  {
    var end := start + len;
    if len == 0 then false
    else if text[start] == '[' as int then
      var close := FirstOf(text, ']' as int, start + 1, end);
      && close + 1 < end && text[close + 1] == ':' as int
      && ValidBracketed(text, v, start + 1, close) && v.port(close + 2, end - close - 2)
    else
      var colon := FirstOf(text, ':' as int, start, end);
      && colon < end && v.port(colon + 1, end - colon - 1)
      && (v.ipv4(start, colon - start) || v.hostname(start, colon - start))
  }

  /** A part before a delimiter, the delimiter, and a part after it; empty parts leave no span. */
  function SplitSpans(start: nat, len: nat, at: nat, before: Kind, after: Kind): seq<Span>
    requires at < len
  {
    (if at > 0 then [Span(before, start, at)] else [])
    + [Span(HighlightDelimiter, start + at, 1)]
    + (if at + 1 < len then [Span(after, start + at + 1, len - at - 1)] else [])
  }

  ghost function EndpointSpans(text: Text, v: Validators, start: nat, len: nat): seq<Span>
    requires start + len <= |text|
  {
    var colon := LastOf(text, ':' as int, start, start + len) - start;
    if len == 0 then []
    else if !ValidEndpoint(text, v, start, len) || colon < 0 then [Span(HighlightError, start, len)]
    else SplitSpans(start, len, colon, HighlightHost, HighlightPort)
  }

  ghost function NetworkSpans(text: Text, v: Validators, start: nat, len: nat): seq<Span>
    requires start + len <= |text|
  {
    var slash := FirstOf(text, '/' as int, start, start + len) - start;
    if len == 0 then []
    else if !v.network(start, len) then [Span(HighlightError, start, len)]
    else if slash == len then [Span(HighlightIP, start, len)]
    else SplitSpans(start, len, slash, HighlightIP, HighlightCidr)
  }

  /** Which entries of a list are right. */
  predicate AcceptsEntry(v: Validators, field: Field, start: nat, len: nat) {
    match field
    case DNS => v.ipv4(start, len) || v.ipv6(start, len) || v.hostname(start, len)
    case Address | AllowedIPs => v.network(start, len)
    case _ => false
  }

  ghost function EntrySpans(text: Text, v: Validators, field: Field, start: nat, len: nat): seq<Span>
    requires start + len <= |text|
  {
    if len == 0 then []
    else if !AcceptsEntry(v, field, start, len) then [Span(HighlightError, start, len)]
    else if field != DNS then NetworkSpans(text, v, start, len)
    else [Span(if v.ipv4(start, len) || v.ipv6(start, len) then HighlightIP else HighlightHost, start, len)]
  }

  /** Entries between commas; a comma at the very end is an error. */
  ghost function ListSpans(text: Text, v: Validators, field: Field, from: nat, end: nat): seq<Span>
    requires from <= end <= |text|
    decreases end - from
  {
    if from == end then []
    else
      var comma := FirstOf(text, ',' as int, from, end);
      var start := Skip(text, from, comma);
      var entry := EntrySpans(text, v, field, start, Trim(text, start, comma) - start);
      if comma == end then entry
      else
        entry + [Span(if comma + 1 == end then HighlightError else HighlightDelimiter, comma, 1)]
        + ListSpans(text, v, field, comma + 1, end)
  }

  /** Which single values are right: a key is when it would be accepted as a key. */
  ghost predicate Accepts(text: Text, v: Validators, field: Field, start: nat, len: nat)
    requires start + len <= |text|
  {
    match field
    case PrivateKey | PublicKey | PresharedKey => IsKeyText(text[start..start + len])
    case MTU => v.mtu(start, len)
    case SaveConfig => v.saveConfig(start, len)
    case FwMark => v.fwmark(start, len)
    case Table => v.table(start, len)
    case ListenPort => v.port(start, len)
    case PersistentKeepalive => v.keepalive(start, len)
    case PreUp | PostUp | PreDown | PostDown => true
    case _ => false
  }

  ghost function ValueColour(text: Text, v: Validators, field: Field, start: nat, len: nat): Kind
    requires start + len <= |text|
  {
    if Accepts(text, v, field, start, len) then Colour(field) else HighlightError
  }

  function Colour(field: Field): Kind {
    match field
    case PrivateKey => HighlightPrivateKey
    case PublicKey => HighlightPublicKey
    case PresharedKey => HighlightPresharedKey
    case MTU => HighlightMTU
    case SaveConfig => HighlightSaveConfig
    case FwMark => HighlightFwMark
    case Table => HighlightTable
    case ListenPort => HighlightPort
    case PersistentKeepalive => HighlightKeepalive
    case PreUp | PostUp | PreDown | PostDown => HighlightCmd
    case _ => HighlightError
  }

  ghost function ValueSpans(text: Text, v: Validators, field: Field, start: nat, len: nat): seq<Span>
    requires start + len <= |text|
  {
    match field
    case Endpoint => EndpointSpans(text, v, start, len)
    case Address | DNS | AllowedIPs => ListSpans(text, v, field, start, start + len)
    case _ => if len == 0 then [] else [Span(ValueColour(text, v, field, start, len), start, len)]
  }

  // ---------------------------------------------------------------- lines

  /** The name of a field of this section. */
  predicate Belongs(field: Field, section: Field) {
    section != Invalid && SectionFor(field) == section
  }

  /** The name before an equals sign. */
  function KeySpan(text: Text, section: Field, key: nat, equals: nat): Span
    requires key <= equals <= |text|
  {
    var end := Trim(text, key, equals);
    Span(if Belongs(GetField(text[key..end]), section) then HighlightField else HighlightError, key, end - key)
  }

  function FieldBefore(text: Text, key: nat, equals: nat): Field
    requires key <= equals <= |text|
  {
    GetField(text[key..Trim(text, key, equals)])
  }

  /** A name at `key`, an equals sign, and what comes after it. */
  ghost function SettingSpans(text: Text, v: Validators, section: Field, key: nat, equals: nat, end: nat): seq<Span>
    requires key <= equals < end <= |text|
  {
    var value := Skip(text, equals + 1, end);
    if value == end then [KeySpan(text, section, key, equals), Span(HighlightError, equals, 1)]
    else
      [KeySpan(text, section, key, equals), Span(HighlightDelimiter, equals, 1)]
      + ValueSpans(text, v, FieldBefore(text, key, equals), value, Trim(text, value, end) - value)
  }

  function HeaderColour(s: Text): Kind {
    if GetSection(s) == Invalid then HighlightError else HighlightSection
  }

  /** A line without its comment. A name has at least one character, even if that is an equals sign. */
  ghost function ContentSpans(text: Text, v: Validators, section: Field, from: nat, end: nat): seq<Span>
    requires from <= end <= |text|
  {
    var start := Skip(text, from, end);
    if start == end then []
    else
      var stop := Trim(text, start, end);
      if text[start] == '[' as int then
        [Span(HeaderColour(text[start..stop]), start, stop - start)]
      else
        var equals := FirstOf(text, '=' as int, start + 1, end);
        if equals == end then [Span(HighlightError, start, stop - start)]
        else SettingSpans(text, v, section, start, equals, end)
  }

  /** The section after a line: a line that begins with a bracket changes it, even if it is no header. */
  ghost function SectionAfter(text: Text, section: Field, from: nat, end: nat): Field
    requires from <= end <= |text|
  {
    var start := Skip(text, from, end);
    if start < end && text[start] == '[' as int then GetSection(text[start..Trim(text, start, end)]) else section
  }

  ghost function LineSpans(text: Text, v: Validators, section: Field, from: nat, end: nat): seq<Span>
    requires from <= end <= |text|
  {
    var comment := FirstOf(text, '#' as int, from, end);
    ContentSpans(text, v, section, from, comment)
    + if comment < end then [Span(HighlightComment, comment, end - comment)] else []
  }

  /** The lines from a position on, in a section. */
  ghost function AllSpans(text: Text, v: Validators, section: Field, from: nat): seq<Span>
    requires from <= |text|
    decreases |text| - from
  {
    var end := FirstOf(text, '\n' as int, from, |text|);
    LineSpans(text, v, section, from, end)
    + if end == |text| then []
      else AllSpans(text, v, SectionAfter(text, section, from, FirstOf(text, '#' as int, from, end)), end + 1)
  }

  // ---------------------------------------------------------------- the scan of one line

  datatype State = OnNone | OnKey | OnValue | OnComment | OnSection

  /** What is recorded for a pending piece. */
  ghost function Flushed(text: Text, v: Validators, state: State, start: nat, len: nat, last: nat, equals: nat,
                         field: Field): seq<Span>
    requires state in {OnKey, OnSection} || (state == OnValue && len > 0) ==> start + last <= |text|
  {
    match state
    case OnNone => []
    case OnKey => [Span(HighlightError, start, last)]
    case OnValue =>
      if len == 0 then [Span(HighlightError, equals, 1)]
      else [Span(HighlightDelimiter, equals, 1)] + ValueSpans(text, v, field, start, last)
    case OnSection => [Span(HeaderColour(text[start..start + last]), start, last)]
    case OnComment => [Span(HighlightComment, start, len)]
  }

  /** A piece from `start` to i, spaces and tabs at its end left out of `last`. */
  ghost predicate Pending(text: Text, start: nat, len: nat, last: nat, i: nat) {
    && start + len == i <= |text| && 0 < last <= len
    && !Space(text[start]) && !Space(text[start + last - 1]) && Spaces(text, start + last, i)
  }

  ghost predicate Without(text: Text, c: cchar, from: nat, end: nat) {
    end <= |text| && forall k :: from <= k < end ==> text[k] != c
  }

  /** A name so far, or a bracketed text. */
  ghost predicate InPiece(text: Text, line: nat, bracket: bool, i: nat, start: nat, len: nat, last: nat) {
    && line <= start && Spaces(text, line, start) && Pending(text, start, len, last, i)
    && (text[start] == '[' as int <==> bracket) && (!bracket ==> Without(text, '=' as int, start + 1, i))
  }

  /** A name that begins at `key`, its equals sign, and a value so far. */
  ghost predicate InValue(text: Text, section: Field, done: seq<Span>, line: nat, key: nat, spans: seq<Span>,
                          field: Field, i: nat, start: nat, len: nat, last: nat, equals: nat) {
    && line <= key < equals < i <= |text| && Spaces(text, line, key) && !Space(text[key]) && text[key] != '[' as int
    && Without(text, '=' as int, key + 1, equals) && text[equals] == '=' as int
    && spans == done + [KeySpan(text, section, key, equals)] && field == FieldBefore(text, key, equals)
    && equals < start && Spaces(text, equals + 1, start)
    && if len == 0 then start == i else Pending(text, start, len, last, i)
  }

  ghost predicate InComment(text: Text, v: Validators, section: Field, done: seq<Span>, line: nat, spans: seq<Span>,
                            i: nat, start: nat, len: nat) {
    && line <= start && start + len == i <= |text| && len > 0
    && text[start] == '#' as int && Without(text, '#' as int, line, start)
    && spans == done + ContentSpans(text, v, section, line, start)
  }

  /** At position i of the line that begins at `line`, in a section, with `done` recorded before the line. */
  ghost predicate InLine(text: Text, v: Validators, section: Field, done: seq<Span>, line: nat, key: nat,
                         spans: seq<Span>, field: Field, state: State, i: nat, start: nat, len: nat, last: nat,
                         equals: nat) {
    && line <= i <= |text| && Without(text, '\n' as int, line, i)
    && (state != OnComment ==> Without(text, '#' as int, line, i))
    && match state
      case OnNone => spans == done && len == 0 && start == i && Spaces(text, line, i)
      case OnKey => spans == done && InPiece(text, line, false, i, start, len, last)
      case OnSection => spans == done && InPiece(text, line, true, i, start, len, last)
      case OnValue => InValue(text, section, done, line, key, spans, field, i, start, len, last, equals)
      case OnComment => InComment(text, v, section, done, line, spans, i, start, len)
  }

  /** A character that neither ends the line nor is an equals sign after a name. */
  lemma LineOn(text: Text, v: Validators, section: Field, done: seq<Span>, line: nat, key: nat, spans: seq<Span>,
               field: Field, state: State, i: nat, start: nat, len: nat, last: nat, equals: nat)
    requires InLine(text, v, section, done, line, key, spans, field, state, i, start, len, last, equals)
    requires i < |text| && text[i] != '\n' as int && (state != OnComment ==> text[i] != '#' as int)
    ensures state == OnComment ==>
      InLine(text, v, section, done, line, key, spans, field, state, i + 1, start, len + 1, last, equals)
    ensures state != OnComment && Space(text[i]) && i == start && len == 0 ==>
      InLine(text, v, section, done, line, key, spans, field, state, i + 1, start + 1, len, last, equals)
    ensures state != OnComment && Space(text[i]) && !(i == start && len == 0) ==>
      InLine(text, v, section, done, line, key, spans, field, state, i + 1, start, len + 1, last, equals)
    ensures state in {OnSection, OnValue} && !Space(text[i]) ==>
      InLine(text, v, section, done, line, key, spans, field, state, i + 1, start, len + 1, len + 1, equals)
    ensures state == OnKey && !Space(text[i]) && text[i] != '=' as int ==>
      InLine(text, v, section, done, line, key, spans, field, state, i + 1, start, len + 1, len + 1, equals)
    ensures state == OnNone && !Space(text[i]) ==>
      InLine(text, v, section, done, line, key, spans, field, if text[i] == '[' as int then OnSection else OnKey, i + 1,
             start, len + 1, len + 1, equals)
  {
    hide InLine, Space;
    match state
    case OnNone => NoneOn(text, v, section, done, line, key, spans, field, i, start, len, last, equals);
    case OnKey => PieceOn(text, v, section, done, line, key, spans, field, state, i, start, len, last, equals);
    case OnSection => PieceOn(text, v, section, done, line, key, spans, field, state, i, start, len, last, equals);
    case OnValue => ValueOn(text, v, section, done, line, key, spans, field, i, start, len, last, equals);
    case OnComment => CommentOn(text, v, section, done, line, key, spans, field, i, start, len, last, equals);
  }

  lemma NoneOn(text: Text, v: Validators, section: Field, done: seq<Span>, line: nat, key: nat, spans: seq<Span>,
               field: Field, i: nat, start: nat, len: nat, last: nat, equals: nat)
    requires InLine(text, v, section, done, line, key, spans, field, OnNone, i, start, len, last, equals)
    requires i < |text| && text[i] != '\n' as int && text[i] != '#' as int
    ensures start == i && len == 0
    ensures Space(text[i]) ==>
      InLine(text, v, section, done, line, key, spans, field, OnNone, i + 1, start + 1, len, last, equals)
    ensures !Space(text[i]) ==>
      InLine(text, v, section, done, line, key, spans, field, if text[i] == '[' as int then OnSection else OnKey, i + 1,
             start, len + 1, len + 1, equals)
  {
    hide InValue, InComment, Pending, Spaces, Without;
    PartsOn(text, line, start, i);
    PendingNew(text, i);
  }

  lemma PieceOn(text: Text, v: Validators, section: Field, done: seq<Span>, line: nat, key: nat, spans: seq<Span>,
                field: Field, state: State, i: nat, start: nat, len: nat, last: nat, equals: nat)
    requires InLine(text, v, section, done, line, key, spans, field, state, i, start, len, last, equals)
    requires state in {OnKey, OnSection} && i < |text| && text[i] != '\n' as int && text[i] != '#' as int
    ensures len > 0
    ensures Space(text[i]) ==>
      InLine(text, v, section, done, line, key, spans, field, state, i + 1, start, len + 1, last, equals)
    ensures !Space(text[i]) && (state == OnKey ==> text[i] != '=' as int) ==>
      InLine(text, v, section, done, line, key, spans, field, state, i + 1, start, len + 1, len + 1, equals)
  {
    hide InValue, InComment, InPiece, Without;
    PartsOn(text, line, start, i);
    InPieceOn(text, line, state == OnSection, i, start, len, last);
  }

  lemma ValueOn(text: Text, v: Validators, section: Field, done: seq<Span>, line: nat, key: nat, spans: seq<Span>,
                field: Field, i: nat, start: nat, len: nat, last: nat, equals: nat)
    requires InLine(text, v, section, done, line, key, spans, field, OnValue, i, start, len, last, equals)
    requires i < |text| && text[i] != '\n' as int && text[i] != '#' as int
    ensures len == 0 ==> start == i
    ensures Space(text[i]) && len == 0 ==>
      InLine(text, v, section, done, line, key, spans, field, OnValue, i + 1, start + 1, len, last, equals)
    ensures Space(text[i]) && len > 0 ==>
      InLine(text, v, section, done, line, key, spans, field, OnValue, i + 1, start, len + 1, last, equals)
    ensures !Space(text[i]) ==>
      InLine(text, v, section, done, line, key, spans, field, OnValue, i + 1, start, len + 1, len + 1, equals)
  {
    hide InPiece, InComment, InValue, Without;
    PartsOn(text, line, start, i);
    InValueOn(text, section, done, line, key, spans, field, i, start, len, last, equals);
  }

  lemma InPieceOn(text: Text, line: nat, bracket: bool, i: nat, start: nat, len: nat, last: nat)
    requires InPiece(text, line, bracket, i, start, len, last) && i < |text|
    ensures len > 0
    ensures Space(text[i]) ==> InPiece(text, line, bracket, i + 1, start, len + 1, last)
    ensures !Space(text[i]) && (!bracket ==> text[i] != '=' as int) ==>
      InPiece(text, line, bracket, i + 1, start, len + 1, len + 1)
  {
    hide Pending, Spaces, Without;
    PartsOn(text, line, start, i);
    PendingOn(text, start, len, last, i);
  }

  lemma InValueOn(text: Text, section: Field, done: seq<Span>, line: nat, key: nat, spans: seq<Span>, field: Field,
                  i: nat, start: nat, len: nat, last: nat, equals: nat)
    requires InValue(text, section, done, line, key, spans, field, i, start, len, last, equals) && i < |text|
    ensures len == 0 ==> start == i
    ensures Space(text[i]) && len == 0 ==>
      InValue(text, section, done, line, key, spans, field, i + 1, start + 1, len, last, equals)
    ensures Space(text[i]) && len > 0 ==>
      InValue(text, section, done, line, key, spans, field, i + 1, start, len + 1, last, equals)
    ensures !Space(text[i]) ==>
      InValue(text, section, done, line, key, spans, field, i + 1, start, len + 1, len + 1, equals)
  {
    hide KeySpan, FieldBefore, Pending, Spaces, Without;
    PartsOn(text, equals + 1, start, i);
    if len > 0 {
      PendingOn(text, start, len, last, i);
    } else {
      PendingNew(text, i);
    }
  }

  lemma CommentOn(text: Text, v: Validators, section: Field, done: seq<Span>, line: nat, key: nat, spans: seq<Span>,
                  field: Field, i: nat, start: nat, len: nat, last: nat, equals: nat)
    requires InLine(text, v, section, done, line, key, spans, field, OnComment, i, start, len, last, equals)
    requires i < |text| && text[i] != '\n' as int
    ensures InLine(text, v, section, done, line, key, spans, field, OnComment, i + 1, start, len + 1, last, equals)
  {
    hide InPiece, InValue, ContentSpans, Without;
    PartsOn(text, line, start, i);
  }

  lemma PartsOn(text: Text, from: nat, start: nat, i: nat)
    requires i < |text|
    ensures text[i] != '\n' as int && Without(text, '\n' as int, from, i) ==> Without(text, '\n' as int, from, i + 1)
    ensures text[i] != '#' as int && Without(text, '#' as int, from, i) ==> Without(text, '#' as int, from, i + 1)
    ensures text[i] != '=' as int && Without(text, '=' as int, start + 1, i) ==>
      Without(text, '=' as int, start + 1, i + 1)
    ensures start == i ==> Without(text, '=' as int, start + 1, i + 1)
    ensures Space(text[i]) && Spaces(text, from, i) ==> Spaces(text, from, i + 1)
  {
  }

  lemma PendingOn(text: Text, start: nat, len: nat, last: nat, i: nat)
    requires Pending(text, start, len, last, i) && i < |text|
    ensures start < i && len > 0
    ensures Space(text[i]) ==> Pending(text, start, len + 1, last, i + 1)
    ensures !Space(text[i]) ==> Pending(text, start, len + 1, len + 1, i + 1)
  {
  }

  lemma PendingNew(text: Text, i: nat)
    requires i < |text|
    ensures !Space(text[i]) ==> Pending(text, i, 1, 1, i + 1)
  {
  }

  lemma LineBegins(text: Text, v: Validators, section: Field, done: seq<Span>, line: nat, key: nat, field: Field,
                   equals: nat)
    requires line <= |text|
    ensures InLine(text, v, section, done, line, key, done, field, OnNone, line, line, 0, 0, equals)
  {
  }

  /** The section in force: a header changes it as soon as it ends, with its line or before a comment. */
  ghost function SectionSoFar(text: Text, section: Field, state: State, line: nat, start: nat): Field {
    if state == OnComment && line <= start <= |text| then SectionAfter(text, section, line, start) else section
  }

  /** The equals sign after a name. */
  lemma LineEquals(text: Text, v: Validators, section: Field, done: seq<Span>, line: nat, key: nat, spans: seq<Span>,
                   field: Field, i: nat, start: nat, len: nat, last: nat, equals: nat)
    requires InLine(text, v, section, done, line, key, spans, field, OnKey, i, start, len, last, equals)
    requires i < |text| && text[i] == '=' as int
    ensures last > 0 && start + last <= i
    ensures FieldBefore(text, start, i) == GetField(text[start..start + last])
    ensures var f := GetField(text[start..start + last]);
      var known := SectionFor(f) != Invalid && f != Invalid && SectionFor(f) == section;
      KeySpan(text, section, start, i) == Span(if !known then HighlightError else HighlightField, start, last)
    ensures InLine(text, v, section, done, line, start, spans + [KeySpan(text, section, start, i)],
                   FieldBefore(text, start, i), OnValue, i + 1, i + 1, 0, last, i)
  {
    hide ContentSpans, GetField;
    TrimIs(text, start, i, start + last);
  }

  /** The end of the content: what was recorded for the line is what it should be. */
  lemma LineFlushed(text: Text, v: Validators, section: Field, done: seq<Span>, line: nat, key: nat, spans: seq<Span>,
                    field: Field, state: State, i: nat, start: nat, len: nat, last: nat, equals: nat)
    requires InLine(text, v, section, done, line, key, spans, field, state, i, start, len, last, equals)
    requires state != OnComment
    ensures state in {OnKey, OnSection} || (state == OnValue && len > 0) ==> start + last <= |text|
    ensures spans + Flushed(text, v, state, start, len, last, equals, field) ==
      done + ContentSpans(text, v, section, line, i)
    ensures SectionAfter(text, section, line, i) ==
      if state == OnSection then GetSection(text[start..start + last]) else section
  {
    hide ContentSpans, SectionAfter, InPiece, InValue, Spaces, ValueSpans, GetSection;
    match state
    case OnNone =>
      NothingFlushed(text, v, section, line, i);
    case OnKey =>
      KeyFlushed(text, v, section, line, i, start, len, last);
    case OnSection =>
      HeaderFlushed(text, v, section, line, i, start, len, last);
    case OnValue =>
      SettingFlushed(text, v, section, done, line, key, spans, field, i, start, len, last, equals);
  }

  lemma NothingFlushed(text: Text, v: Validators, section: Field, line: nat, i: nat)
    requires line <= i <= |text| && Spaces(text, line, i)
    ensures ContentSpans(text, v, section, line, i) == [] && SectionAfter(text, section, line, i) == section
  {
    SkipIs(text, line, i, i);
  }

  lemma KeyFlushed(text: Text, v: Validators, section: Field, line: nat, i: nat, start: nat, len: nat, last: nat)
    requires line <= i && InPiece(text, line, false, i, start, len, last)
    ensures start + last <= |text|
    ensures ContentSpans(text, v, section, line, i) == [Span(HighlightError, start, last)]
    ensures SectionAfter(text, section, line, i) == section
  {
    SkipIs(text, line, i, start);
    TrimIs(text, start, i, start + last);
    FirstIs(text, '=' as int, start + 1, i, i);
  }

  lemma HeaderFlushed(text: Text, v: Validators, section: Field, line: nat, i: nat, start: nat, len: nat, last: nat)
    requires line <= i && InPiece(text, line, true, i, start, len, last)
    ensures start + last <= |text|
    ensures ContentSpans(text, v, section, line, i) == [Span(HeaderColour(text[start..start + last]), start, last)]
    ensures SectionAfter(text, section, line, i) == GetSection(text[start..start + last])
  {
    hide GetSection;
    SkipIs(text, line, i, start);
    TrimIs(text, start, i, start + last);
  }

  lemma SettingFlushed(text: Text, v: Validators, section: Field, done: seq<Span>, line: nat, key: nat,
                       spans: seq<Span>, field: Field, i: nat, start: nat, len: nat, last: nat, equals: nat)
    requires InLine(text, v, section, done, line, key, spans, field, OnValue, i, start, len, last, equals)
    ensures len > 0 ==> start + last <= |text|
    ensures spans + Flushed(text, v, OnValue, start, len, last, equals, field) ==
      done + ContentSpans(text, v, section, line, i)
    ensures SectionAfter(text, section, line, i) == section
  {
    hide ValueSpans, KeySpan, FieldBefore, Skip, Trim, FirstOf, ContentSpans, SectionAfter;
    ContentIsSetting(text, v, section, line, key, equals, i);
    SkipIs(text, equals + 1, i, start);
    var k := KeySpan(text, section, key, equals);
    if len == 0 {
      assert (done + [k]) + [Span(HighlightError, equals, 1)] == done + [k, Span(HighlightError, equals, 1)];
    } else {
      TrimIs(text, start, i, start + last);
      var sign, value := Span(HighlightDelimiter, equals, 1), ValueSpans(text, v, field, start, last);
      assert (done + [k]) + ([sign] + value) == done + ([k, sign] + value);
    }
  }

  lemma ContentIsSetting(text: Text, v: Validators, section: Field, line: nat, key: nat, equals: nat, end: nat)
    requires line <= key < equals < end <= |text| && Spaces(text, line, key) && !Space(text[key])
    requires text[key] != '[' as int && Without(text, '=' as int, key + 1, equals) && text[equals] == '=' as int
    ensures ContentSpans(text, v, section, line, end) == SettingSpans(text, v, section, key, equals, end)
    ensures SectionAfter(text, section, line, end) == section
  {
    hide SettingSpans;
    SkipIs(text, line, end, key);
    FirstIs(text, '=' as int, key + 1, end, equals);
  }

  /** The end of the text, of a line, or of what comes before a comment. */
  lemma LineOver(text: Text, v: Validators, section: Field, done: seq<Span>, line: nat, key: nat, spans: seq<Span>,
                 field: Field, state: State, i: nat, start: nat, len: nat, last: nat, equals: nat)
    requires InLine(text, v, section, done, line, key, spans, field, state, i, start, len, last, equals)
    requires i == |text| || text[i] == '\n' as int || (state != OnComment && text[i] == '#' as int)
    ensures state in {OnKey, OnSection} || (state == OnValue && len > 0) ==> start + last <= |text|
    ensures var after := spans + Flushed(text, v, state, start, len, last, equals, field);
      var next := SectionFlushed(text, SectionSoFar(text, section, state, line, start), state, start, last);
      if i < |text| && text[i] == '#' as int
      then
        && InLine(text, v, section, done, line, key, after, Invalid, OnComment, i + 1, i, 1, 0, equals)
        && next == SectionSoFar(text, section, OnComment, line, i)
      else
        && line <= i <= |text|
        && done + AllSpans(text, v, section, line) ==
          after + (if i == |text| then [] else AllSpans(text, v, next, i + 1))
  {
    hide AllSpans, ContentSpans, SectionAfter, Pending, Spaces, KeySpan, FieldBefore, ValueSpans, GetSection;
    if state == OnComment {
      LineDone(text, v, section, done, line, start, i, spans + [Span(HighlightComment, start, len)]);
    } else {
      LineFlushed(text, v, section, done, line, key, spans, field, state, i, start, len, last, equals);
      var after := spans + Flushed(text, v, state, start, len, last, equals, field);
      if i == |text| || text[i] == '\n' as int {
        LineDone(text, v, section, done, line, i, i, after);
      }
    }
  }

  /** The section after a piece has been recorded. */
  function SectionFlushed(text: Text, section: Field, state: State, start: nat, last: nat): Field {
    if state == OnSection && start + last <= |text| then GetSection(text[start..start + last]) else section
  }

  /** At the end of a line, with or without a comment. */
  lemma LineDone(text: Text, v: Validators, section: Field, done: seq<Span>, line: nat, comment: nat, end: nat,
                 spans: seq<Span>)
    requires line <= comment <= end <= |text| && (end < |text| ==> text[end] == '\n' as int)
    requires Without(text, '\n' as int, line, end) && Without(text, '#' as int, line, comment)
    requires comment < end ==> text[comment] == '#' as int
    requires spans == done + ContentSpans(text, v, section, line, comment)
      + if comment < end then [Span(HighlightComment, comment, end - comment)] else []
    ensures done + AllSpans(text, v, section, line) == spans
      + if end == |text| then [] else AllSpans(text, v, SectionAfter(text, section, line, comment), end + 1)
  {
    hide ContentSpans, SectionAfter, FirstOf, LineSpans;
    FirstIs(text, '\n' as int, line, |text|, end);
    FirstIs(text, '#' as int, line, end, comment);
    OneLine(text, v, section, line, comment, end);
    var one := LineSpans(text, v, section, line, end);
    assert spans == done + one;
    if end < |text| {
      var rest := AllSpans(text, v, SectionAfter(text, section, line, comment), end + 1);
      assert (done + one) + rest == done + (one + rest);
    }
  }

  lemma OneLine(text: Text, v: Validators, section: Field, line: nat, comment: nat, end: nat)
    requires line <= comment <= end <= |text| && comment == FirstOf(text, '#' as int, line, end)
    ensures LineSpans(text, v, section, line, end) == ContentSpans(text, v, section, line, comment)
      + if comment < end then [Span(HighlightComment, comment, end - comment)] else []
  {
    hide ContentSpans, FirstOf;
  }
}
