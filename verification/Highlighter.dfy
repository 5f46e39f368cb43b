/**
 The syntax highlighter: one pass over a configuration text that cuts it into coloured
 spans. The validators of addresses, host names and numbers only choose colours; they
 are parameters here, so the results hold whatever they answer.
 */
module Highlighter {
  import opened Bits
  import opened Ascii
  import opened KeyCodec
  import opened HighlightLines
  import opened HighlightReasons

  // ---------------------------------------------------------------- what a good result is

  ghost predicate Inside(s: Span, p: nat) { s.start <= p < s.start + s.len }

  /** One after the other, none empty, all before position n. */
  ghost predicate InOrder(spans: seq<Span>, n: nat) {
    && (forall i :: 0 <= i < |spans| ==> spans[i].len > 0 && spans[i].start + spans[i].len <= n)
    && (forall i, j :: 0 <= i < j < |spans| ==> spans[i].start + spans[i].len <= spans[j].start)
  }

  ghost predicate InSome(spans: seq<Span>, p: nat) {
    exists i :: 0 <= i < |spans| && Inside(spans[i], p)
  }

  /** The colour of a span is earned by what it covers. */
  ghost predicate Earned(text: Text, v: Validators, s: Span) {
    var end := s.start + s.len;
    s.len > 0 && end <= |text| &&
    match s.kind
    case HighlightSection => GetSection(text[s.start..end]) != Invalid
    case HighlightField => GetField(text[s.start..end]) != Invalid
    case HighlightPrivateKey | HighlightPublicKey | HighlightPresharedKey => IsKeyText(text[s.start..end])
    case HighlightDelimiter => s.len == 1 && text[s.start] in {'=' as int, ',' as int, ':' as int, '/' as int}
    case HighlightComment =>
      text[s.start] == '#' as int && (end < |text| ==> text[end] == '\n' as int)
      && forall p :: s.start <= p < end ==> text[p] != '\n' as int
    case HighlightIP =>
      v.ipv4(s.start, s.len) || v.ipv6(s.start, s.len) || v.network(s.start, s.len) ||
        (end < |text| && text[end] == '/' as int)
    case HighlightCidr => s.start > 0 && text[s.start - 1] == '/' as int
    case HighlightHost => v.hostname(s.start, s.len) || (end < |text| && text[end] == ':' as int)
    case HighlightPort => v.port(s.start, s.len) || (s.start > 0 && text[s.start - 1] == ':' as int)
    case HighlightMTU => v.mtu(s.start, s.len)
    case HighlightTable => v.table(s.start, s.len)
    case HighlightFwMark => v.fwmark(s.start, s.len)
    case HighlightSaveConfig => v.saveConfig(s.start, s.len)
    case HighlightKeepalive => v.keepalive(s.start, s.len)
    case HighlightEnd => false
    case _ => true
  }

  /**
   The spans deal with the text before n: each character there that is not blank is in
   one, and each has earned its colour.
   */
  ghost predicate Covers(text: Text, v: Validators, spans: seq<Span>, n: nat) {
    && n <= |text| && InOrder(spans, n)
    && (forall p :: 0 <= p < n && !Blank(text[p]) ==> InSome(spans, p))
    && (forall i :: 0 <= i < |spans| ==> Earned(text, v, spans[i]))
  }

  ghost predicate Blanks(text: Text, from: nat, to: nat) {
    forall p :: from <= p < to && p < |text| ==> Blank(text[p])
  }

  lemma InSomeMore(spans: seq<Span>, s: Span, p: nat)
    ensures InSome(spans, p) || Inside(s, p) ==> InSome(spans + [s], p)
  {
    var more := spans + [s];
    if InSome(spans, p) {
      var i :| 0 <= i < |spans| && Inside(spans[i], p);
      assert Inside(more[i], p);
    } else if Inside(s, p) {
      assert Inside(more[|spans|], p);
    }
  }

  /** Only blanks between what was dealt with and the next position. */
  lemma CoversBlanks(text: Text, v: Validators, spans: seq<Span>, n: nat, m: nat)
    requires Covers(text, v, spans, n) && n <= m <= |text| && Blanks(text, n, m)
    ensures Covers(text, v, spans, m)
  {
  }

  lemma CoversNext(text: Text, v: Validators, spans: seq<Span>, n: nat, s: Span)
    requires Covers(text, v, spans, n) && s.start == n && Earned(text, v, s)
    ensures Covers(text, v, spans + [s], n + s.len)
  {
    var more := spans + [s];
    forall p | 0 <= p < n + s.len && !Blank(text[p])
      ensures InSome(more, p)
    {
      InSomeMore(spans, s, p);
    }
  }

  /** Recolouring the last span as an error keeps what is covered. */
  lemma Recoloured(text: Text, v: Validators, spans: seq<Span>, n: nat)
    requires Covers(text, v, spans, n) && spans != []
    ensures var i := |spans| - 1; Covers(text, v, spans[i := spans[i].(kind := HighlightError)], n)
  {
    hide GetSection, GetField, IsKeyText;
    var i := |spans| - 1;
    var other := spans[i := spans[i].(kind := HighlightError)];
    forall p | 0 <= p < n && !Blank(text[p])
      ensures InSome(other, p)
    {
      var j :| 0 <= j < |spans| && Inside(spans[j], p);
      assert Inside(other[j], p);
    }
  }

  ghost predicate InExactlyOne(spans: seq<Span>, p: nat) {
    exists i :: 0 <= i < |spans| && Inside(spans[i], p)
      && forall j :: 0 <= j < |spans| && Inside(spans[j], p) ==> j == i
  }

  /** In order means that no position lies in two spans. */
  lemma ExactlyOne(text: Text, v: Validators, spans: seq<Span>, p: nat)
    requires Covers(text, v, spans, |text|) && p < |text| && !Blank(text[p])
    ensures InExactlyOne(spans, p)
  {
    hide Earned;
    var i :| 0 <= i < |spans| && Inside(spans[i], p);
    forall j | 0 <= j < |spans| && Inside(spans[j], p)
      ensures j == i
    {
    }
  }

  // ---------------------------------------------------------------- sections and fields

  /** The spans that are coloured as a section header or as the name of a field. */
  ghost function Heads(spans: seq<Span>): seq<Span> {
    if spans == [] then []
    else
      var n := |spans| - 1;
      Heads(spans[..n]) + if IsHead(spans[n].kind) then [spans[n]] else []
  }

  predicate IsHead(kind: Kind) { kind == HighlightSection || kind == HighlightField }

  lemma HeadsSnoc(spans: seq<Span>, s: Span)
    ensures Heads(spans + [s]) == if IsHead(s.kind) then Heads(spans) + [s] else Heads(spans)
  {
    assert (spans + [s])[..|spans|] == spans;
  }

  /** The section that the last header names. */
  ghost function LastSection(text: Text, heads: seq<Span>): Field {
    if heads == [] then Invalid
    else
      var s := heads[|heads| - 1];
      if s.kind == HighlightSection && s.start + s.len <= |text| then GetSection(text[s.start..s.start + s.len])
      else LastSection(text, heads[..|heads| - 1])
  }

  /** A field is one of the section of the last header before it. */
  ghost predicate FieldBelongs(text: Text, heads: seq<Span>, i: nat)
    requires i < |heads|
  {
    var s := heads[i];
    && s.start + s.len <= |text|
    && SectionFor(GetField(text[s.start..s.start + s.len])) == LastSection(text, heads[..i]) != Invalid
  }

  ghost predicate FieldsBelong(text: Text, heads: seq<Span>) {
    forall i :: 0 <= i < |heads| && heads[i].kind == HighlightField ==> FieldBelongs(text, heads, i)
  }

  lemma LastSectionSnoc(text: Text, heads: seq<Span>, s: Span)
    requires s.start + s.len <= |text|
    ensures LastSection(text, heads + [s]) ==
      if s.kind == HighlightSection then GetSection(text[s.start..s.start + s.len]) else LastSection(text, heads)
  {
    hide GetSection;
    assert (heads + [s])[..|heads|] == heads;
  }

  /** One more header, or one more field of the current section. */
  lemma BelongSnoc(text: Text, heads: seq<Span>, s: Span)
    requires FieldsBelong(text, heads) && s.start + s.len <= |text| && IsHead(s.kind)
    requires s.kind == HighlightField ==>
      SectionFor(GetField(text[s.start..s.start + s.len])) == LastSection(text, heads) != Invalid
    ensures FieldsBelong(text, heads + [s])
    ensures LastSection(text, heads + [s]) ==
      if s.kind == HighlightSection then GetSection(text[s.start..s.start + s.len]) else LastSection(text, heads)
  {
    hide GetSection, GetField, SectionFor, LastSection;
    LastSectionSnoc(text, heads, s);
    var more := heads + [s];
    assert more[..|heads|] == heads;
    forall i | 0 <= i < |more| && more[i].kind == HighlightField
      ensures FieldBelongs(text, more, i)
    {
      if i < |heads| {
        assert FieldBelongs(text, heads, i);
        assert more[..i] == heads[..i];
      }
    }
  }

  /** highlight_span_array */
  class SpanArray {
    var spans: seq<Span>

    constructor ()
      ensures spans == []
    {
      spans := [];
    }

    /** append_highlight_span: an empty span is not recorded. */
    method Append(start: nat, len: nat, kind: Kind)
      modifies this
      ensures spans == if len == 0 then old(spans) else old(spans) + [Span(kind, start, len)]
    {
      if len == 0 {
        return;
      }
      spans := spans + [Span(kind, start, len)];
    }

    /** Records the next part of the text. */
    method AppendNext(text: Text, v: Validators, start: nat, len: nat, kind: Kind)
      requires Covers(text, v, spans, start) && start + len <= |text|
      requires len > 0 ==> Earned(text, v, Span(kind, start, len))
      modifies this
      ensures spans == if len == 0 then old(spans) else old(spans) + [Span(kind, start, len)]
      ensures Covers(text, v, spans, start + len)
      ensures Heads(spans) ==
        if len > 0 && IsHead(kind) then old(Heads(spans)) + [Span(kind, start, len)] else old(Heads(spans))
    {
      hide Covers, Earned;
      if len > 0 {
        CoversNext(text, v, spans, start, Span(kind, start, len));
        HeadsSnoc(spans, Span(kind, start, len));
      }
      Append(start, len, kind);
    }
  }

  // ---------------------------------------------------------------- keys

  predicate IsLetter(c: cchar) { 'a' as int <= Or(c, 32) <= 'z' as int }

  lemma LettersExactly(c: cchar)
    ensures IsLetter(c) <==> 'A' as int <= c <= 'Z' as int || 'a' as int <= c <= 'z' as int
  {
    hide Or;
    assert Pow2(5) == 32;
    OrAbove(c / 32, c % 32, 1, 5);
    OrHalves(c / 32, 1);
    OrZero(c / 64);
    assert c / 32 / 2 == c / 64;
  }

  /** The cases of the switch on the character before the padding. */
  predicate LastChar(c: cchar) {
    c in {'A' as int, 'E' as int, 'I' as int, 'M' as int, 'Q' as int, 'U' as int, 'Y' as int, 'c' as int,
          'g' as int, 'k' as int, 'o' as int, 's' as int, 'w' as int, '4' as int, '8' as int, '0' as int}
  }

  lemma LastCharExactly(c: cchar)
    ensures LastChar(c) <==> Sextet(c) >= 0 && Sextet(c) % 4 == 0
  {
  }

  /** is_valid_key: exactly the texts that key_from_base64 takes. */
  method IsValidKey(s: Text) returns (valid: bool)
    ensures valid <==> IsKeyText(s)
  {
    hide Sextet, IsKeyText, IsLetter;
    KeyShapeExactly(s);
    if |s| != 44 || s[43] != '=' as int {
      return false;
    }
    for i := 0 to 42
      invariant forall k :: 0 <= k < i ==> Sextet(s[k]) >= 0
    {
      SextetClasses(s[i]);
      if !IsDecimal(s[i]) && !IsLetter(s[i]) && s[i] != '/' as int && s[i] != '+' as int {
        assert Sextet(s[..43][i]) < 0;
        return false;
      }
    }
    LastCharExactly(s[42]);
    assert s[..43][42] == s[42];
    return LastChar(s[42]);
  }

  lemma SextetClasses(c: cchar)
    ensures Sextet(c) >= 0 <==> IsDecimal(c) || IsLetter(c) || c == '/' as int || c == '+' as int
  {
    hide IsLetter;
    LettersExactly(c);
  }

  // ---------------------------------------------------------------- values

  /** The scan between brackets at position i: the host so far, or the host done and the scope so far. */
  ghost predicate Bracketing(text: Text, v: Validators, from: nat, i: nat, seenScope: bool, hostStart: nat,
                             hostLen: nat) {
    && from <= i <= |text| && hostStart + hostLen == i && (forall k :: from <= k < i ==> text[k] != ']' as int)
    && var percent := FirstOf(text, '%' as int, from, i);
    if !seenScope then percent == i && hostStart == from
    else
      && percent < i && hostStart == percent + 1 && v.ipv6(from, percent - from)
      && FirstOf(text, '%' as int, percent + 1, i) == i
  }

  /** One more character between the brackets. */
  lemma BracketStep(text: Text, v: Validators, from: nat, i: nat, seenScope: bool, hostStart: nat, hostLen: nat)
    requires Bracketing(text, v, from, i, seenScope, hostStart, hostLen) && i < |text| && text[i] != ']' as int
    ensures text[i] != '%' as int ==> Bracketing(text, v, from, i + 1, seenScope, hostStart, hostLen + 1)
    ensures text[i] == '%' as int && !seenScope && v.ipv6(hostStart, hostLen) ==>
      Bracketing(text, v, from, i + 1, true, i + 1, 0)
  {
    var percent := FirstOf(text, '%' as int, from, i);
    if !seenScope {
      FirstIs(text, '%' as int, from, i + 1, if text[i] == '%' as int then i else i + 1);
      if text[i] == '%' as int {
        FirstIs(text, '%' as int, i + 1, i + 1, i + 1);
      }
    } else if text[i] != '%' as int {
      FirstIs(text, '%' as int, from, i + 1, percent);
      FirstIs(text, '%' as int, percent + 1, i + 1, i + 1);
    }
  }

  /** A percent sign that cannot be right: whatever comes after it, this is no endpoint. */
  lemma BracketRefused(text: Text, v: Validators, from: nat, i: nat, seenScope: bool, hostStart: nat, hostLen: nat,
                       close: nat)
    requires Bracketing(text, v, from, i, seenScope, hostStart, hostLen) && i < close <= |text| && text[i] == '%' as int
    requires seenScope || !v.ipv6(hostStart, hostLen)
    ensures !ValidBracketed(text, v, from, close)
  {
    var percent := FirstOf(text, '%' as int, from, i);
    FirstIs(text, '%' as int, from, close, if seenScope then percent else i);
    if seenScope {
      FirstIs(text, '%' as int, percent + 1, close, i);
    }
  }

  /** is_valid_endpoint for what begins with a bracket. */
  method IsValidBracketed(text: Text, v: Validators, start: nat, len: nat) returns (valid: bool)
    requires start + len <= |text| && len > 0 && text[start] == '[' as int
    ensures valid == ValidEndpoint(text, v, start, len)
  {
    hide Bracketing, ValidBracketed;
    var seenScope: bool, hostStart: nat, hostLen: nat := false, start + 1, 0;
    ghost var close := FirstOf(text, ']' as int, start + 1, start + len);
    BracketStart(text, v, start + 1);
    for i := 1 to len
      invariant Bracketing(text, v, start + 1, start + i, seenScope, hostStart, hostLen) && start + i <= close
    {
      var p := start + i;
      if text[p] == '%' as int {
        if seenScope || !v.ipv6(hostStart, hostLen) {
          BracketRefused(text, v, start + 1, p, seenScope, hostStart, hostLen, close);
          return false;
        }
        BracketStep(text, v, start + 1, p, seenScope, hostStart, hostLen);
        seenScope, hostStart, hostLen := true, p + 1, 0;
      } else if text[p] == ']' as int {
        FirstIs(text, ']' as int, start + 1, start + len, p);
        BracketClosed(text, v, start + 1, p, seenScope, hostStart, hostLen);
        if seenScope {
          if !v.scope(hostStart, hostLen) {
            return false;
          }
        } else if !v.ipv6(hostStart, hostLen) {
          return false;
        }
        if i == len - 1 || text[p + 1] != ':' as int {
          return false;
        }
        return v.port(p + 2, len - i - 2);
      } else {
        BracketStep(text, v, start + 1, p, seenScope, hostStart, hostLen);
        hostLen := hostLen + 1;
      }
    }
    return false;
  }

  lemma BracketStart(text: Text, v: Validators, from: nat)
    requires from <= |text|
    ensures Bracketing(text, v, from, from, false, from, 0)
  {
  }

  lemma BracketClosed(text: Text, v: Validators, from: nat, i: nat, seenScope: bool, hostStart: nat, hostLen: nat)
    requires Bracketing(text, v, from, i, seenScope, hostStart, hostLen)
    ensures from <= i <= |text|
    ensures ValidBracketed(text, v, from, i) <==>
      if seenScope then v.scope(hostStart, hostLen) else v.ipv6(hostStart, hostLen)
  {
  }

  /** is_valid_endpoint */
  method IsValidEndpoint(text: Text, v: Validators, start: nat, len: nat) returns (valid: bool)
    requires start + len <= |text|
    ensures valid == ValidEndpoint(text, v, start, len)
  {
    if len == 0 {
      return false;
    }
    if text[start] == '[' as int {
      valid := IsValidBracketed(text, v, start, len);
      return;
    }
    for i := 0 to len
      invariant forall k :: start <= k < start + i ==> text[k] != ':' as int
    {
      if text[start + i] == ':' as int {
        FirstIs(text, ':' as int, start, start + len, start + i);
        return v.port(start + i + 1, len - i - 1) && (v.ipv4(start, i) || v.hostname(start, i));
      }
    }
    return false;
  }

  ghost predicate HasColon(text: Text, start: nat, len: nat) {
    exists i :: start <= i < start + len && i < |text| && text[i] == ':' as int
  }

  /** An endpoint has a colon, which the search for the last one relies on. */
  lemma EndpointHasColon(text: Text, v: Validators, start: nat, len: nat)
    requires start + len <= |text| && ValidEndpoint(text, v, start, len)
    ensures HasColon(text, start, len)
  {
    hide ValidBracketed;
    var end := start + len;
    if text[start] == '[' as int {
      assert text[FirstOf(text, ']' as int, start + 1, end) + 1] == ':' as int;
    } else {
      assert text[FirstOf(text, ':' as int, start, end)] == ':' as int;
    }
  }

  /** The delimiter is reason enough for the colours around it. */
  lemma SplitEarned(text: Text, v: Validators, start: nat, len: nat, at: nat, before: Kind, after: Kind)
    requires start + len <= |text| && at < len
    requires (text[start + at], before, after)
      in {(':' as int, HighlightHost, HighlightPort), ('/' as int, HighlightIP, HighlightCidr)}
    ensures at > 0 ==> Earned(text, v, Span(before, start, at))
    ensures Earned(text, v, Span(HighlightDelimiter, start + at, 1))
    ensures at + 1 < len ==> Earned(text, v, Span(after, start + at + 1, len - at - 1))
  {
    hide GetSection, GetField, IsKeyText;
  }

  /** The part before a delimiter, the delimiter, and the part after it. */
  method AppendSplit(ret: SpanArray, text: Text, v: Validators, start: nat, len: nat, at: nat, before: Kind,
                     after: Kind)
    requires Covers(text, v, ret.spans, start) && start + len <= |text| && at < len
    requires (text[start + at], before, after)
      in {(':' as int, HighlightHost, HighlightPort), ('/' as int, HighlightIP, HighlightCidr)}
    modifies ret
    ensures Covers(text, v, ret.spans, start + len)
    ensures ret.spans == old(ret.spans) + SplitSpans(start, len, at, before, after)
    ensures Heads(ret.spans) == old(Heads(ret.spans))
  {
    hide Covers, Heads, Earned;
    SplitEarned(text, v, start, len, at, before, after);
    ret.AppendNext(text, v, start, at, before);
    ret.AppendNext(text, v, start + at, 1, HighlightDelimiter);
    ret.AppendNext(text, v, start + at + 1, len - at - 1, after);
  }

  method HighlightEndpoint(ret: SpanArray, text: Text, v: Validators, start: nat, len: nat)
    requires Covers(text, v, ret.spans, start) && start + len <= |text|
    modifies ret
    ensures Covers(text, v, ret.spans, start + len)
    ensures ret.spans == old(ret.spans) + EndpointSpans(text, v, start, len)
    ensures Heads(ret.spans) == old(Heads(ret.spans))
  {
    hide Covers, Heads, ValidEndpoint, SplitSpans, GetSection, GetField, IsKeyText;
    var valid := IsValidEndpoint(text, v, start, len);
    if !valid {
      ret.AppendNext(text, v, start, len, HighlightError);
      return;
    }
    EndpointHasColon(text, v, start, len);
    var colon: nat := len;
    while colon > 0
      invariant colon <= len && HasColon(text, start, colon)
      invariant forall k :: start + colon <= k < start + len ==> text[k] != ':' as int
    {
      colon := colon - 1;
      if text[start + colon] == ':' as int {
        break;
      }
    }
    LastIs(text, ':' as int, start, start + len, start + colon);
    AppendSplit(ret, text, v, start, len, colon, HighlightHost, HighlightPort);
  }

  /** An address with its prefix length, if it has one. */
  method HighlightNetwork(ret: SpanArray, text: Text, v: Validators, start: nat, len: nat)
    requires Covers(text, v, ret.spans, start) && start + len <= |text|
    modifies ret
    ensures Covers(text, v, ret.spans, start + len) && old(ret.spans) <= ret.spans
    ensures len > 0 ==> |ret.spans| > |old(ret.spans)|
    ensures ret.spans == old(ret.spans) + NetworkSpans(text, v, start, len)
    ensures len > 0 ==> (ret.spans[|old(ret.spans)|].kind == HighlightError <==> !v.network(start, len))
    ensures Heads(ret.spans) == old(Heads(ret.spans))
  {
    hide Covers, Heads, GetSection, GetField, IsKeyText;
    if !v.network(start, len) {
      ret.AppendNext(text, v, start, len, HighlightError);
      return;
    }
    var slash := 0;
    while slash < len && text[start + slash] != '/' as int
      invariant slash <= len && forall k :: start <= k < start + slash ==> text[k] != '/' as int
    {
      slash := slash + 1;
    }
    FirstIs(text, '/' as int, start, start + len, start + slash);
    if slash == len {
      ret.AppendNext(text, v, start, len, HighlightIP);
    } else {
      AppendSplit(ret, text, v, start, len, slash, HighlightIP, HighlightCidr);
    }
  }

  lemma EntryEarned(text: Text, v: Validators, start: nat, len: nat)
    requires start + len <= |text| && len > 0
    ensures v.ipv4(start, len) || v.ipv6(start, len) || v.network(start, len) ==>
      Earned(text, v, Span(HighlightIP, start, len))
    ensures v.hostname(start, len) ==> Earned(text, v, Span(HighlightHost, start, len))
    ensures Earned(text, v, Span(HighlightError, start, len))
  {
    hide GetSection, GetField, IsKeyText;
  }

  method HighlightMultivalueValue(ret: SpanArray, text: Text, v: Validators, start: nat, len: nat, field: Field)
    requires Covers(text, v, ret.spans, start) && start + len <= |text|
    modifies ret
    ensures Covers(text, v, ret.spans, start + len) && old(ret.spans) <= ret.spans
    ensures len > 0 ==> |ret.spans| > |old(ret.spans)|
    ensures ret.spans == old(ret.spans) + EntrySpans(text, v, field, start, len)
    ensures len > 0 ==> (ret.spans[|old(ret.spans)|].kind == HighlightError <==> !AcceptsEntry(v, field, start, len))
    ensures Heads(ret.spans) == old(Heads(ret.spans))
  {
    hide Covers, Heads, Earned;
    if len > 0 {
      EntryEarned(text, v, start, len);
    }
    match field
    case DNS =>
      if v.ipv4(start, len) || v.ipv6(start, len) {
        ret.AppendNext(text, v, start, len, HighlightIP);
      } else if v.hostname(start, len) {
        ret.AppendNext(text, v, start, len, HighlightHost);
      } else {
        ret.AppendNext(text, v, start, len, HighlightError);
      }
    case Address | AllowedIPs =>
      HighlightNetwork(ret, text, v, start, len);
    case _ =>
      ret.AppendNext(text, v, start, len, HighlightError);
  }

  /** A piece that began at `from`: leading blanks, then characters up to `last`, then blanks up to i. */
  ghost predicate Piece(text: Text, from: nat, start: nat, len: nat, last: nat, i: nat) {
    && from <= start && start + len == i <= |text| && last <= len && (len > 0 ==> last > 0)
    && Spaces(text, from, start) && Spaces(text, start + last, i)
    && (last > 0 ==> !Space(text[start]) && !Space(text[start + last - 1]))
  }

  /** One character further, trailing blanks or not. */
  lemma PieceStep(text: Text, from: nat, start: nat, len: nat, last: nat, i: nat)
    requires Piece(text, from, start, len, last, i) && i < |text|
    ensures !Space(text[i]) ==> Piece(text, from, start, len + 1, len + 1, i + 1)
    ensures Space(text[i]) && len == 0 ==> Piece(text, from, start + 1, len, last, i + 1)
    ensures Space(text[i]) && len > 0 ==> Piece(text, from, start, len + 1, last, i + 1)
  {
  }

  lemma PieceCovers(text: Text, v: Validators, spans: seq<Span>, from: nat, start: nat, len: nat, last: nat, i: nat)
    requires Piece(text, from, start, len, last, i) && Covers(text, v, spans, from)
    ensures Covers(text, v, spans, start)
    ensures forall after :: Covers(text, v, after, start + last) ==> Covers(text, v, after, i)
  {
    CoversBlanks(text, v, spans, from, start);
    forall after | Covers(text, v, after, start + last)
      ensures Covers(text, v, after, i)
    {
      CoversBlanks(text, v, after, start + last, i);
    }
  }

  method HighlightMultivalue(ret: SpanArray, text: Text, v: Validators, start: nat, len: nat, field: Field)
    requires Covers(text, v, ret.spans, start) && start + len <= |text| && ret.spans != []
    modifies ret
    ensures Covers(text, v, ret.spans, start + len) && |ret.spans| >= |old(ret.spans)|
    ensures |ret.spans| > |old(ret.spans)| ==> old(ret.spans) <= ret.spans
    ensures |ret.spans| == |old(ret.spans)| ==> ret.spans == old(ret.spans) || ret.spans == LastFailed(old(ret.spans))
    ensures len > 0 && !Space(text[start + len - 1]) ==>
      ret.spans == old(ret.spans) + ListSpans(text, v, field, start, start + len)
    ensures Heads(ret.spans) == old(Heads(ret.spans))
  {
    hide Covers, Piece, Heads, Listing, EntrySpans, ListSpans;
    var curStart: nat, curLen: nat, last: nat := start, 0, 0;
    ghost var from: nat := start;
    PieceStart(text, start);
    ListBegins(text, v, field, ret.spans, start, start + len);
    for i := start to start + len
      invariant Covers(text, v, ret.spans, from) && ret.spans != [] && old(ret.spans) <= ret.spans
      invariant Heads(ret.spans) == old(Heads(ret.spans))
      invariant Piece(text, from, curStart, curLen, last, i) && from <= i && Without(text, ',' as int, from, i)
      invariant Listing(text, v, field, old(ret.spans), ret.spans, start, from, start + len)
    {
      ghost var before := ret.spans;
      PieceCovers(text, v, ret.spans, from, curStart, curLen, last, i);
      PieceStep(text, from, curStart, curLen, last, i);
      PieceShape(text, from, curStart, curLen, last, i);
      if text[i] == ',' as int {
        curLen := last;
        HighlightMultivalueValue(ret, text, v, curStart, curLen, field);
        ret.AppendNext(text, v, i, 1, HighlightDelimiter);
        ListComma(text, v, field, old(ret.spans), before, start, from, start + len, curStart, last, i);
        last := 0;
        curStart, curLen := i + 1, 0;
        from := i + 1;
        PieceStart(text, i + 1);
      } else if Space(text[i]) {
        if i == curStart && curLen == 0 {
          curStart := curStart + 1;
        } else {
          curLen := curLen + 1;
        }
      } else {
        curLen := curLen + 1;
        last := curLen;
      }
    }
    PieceCovers(text, v, ret.spans, from, curStart, curLen, last, start + len);
    PieceShape(text, from, curStart, curLen, last, start + len);
    ListEnds(text, v, field, old(ret.spans), ret.spans, start, from, start + len, curStart, curLen, last);
    curLen := last;
    if curLen > 0 {
      HighlightMultivalueValue(ret, text, v, curStart, curLen, field);
    } else if ret.spans[|ret.spans| - 1].kind == HighlightDelimiter {
      Recoloured(text, v, ret.spans, curStart);
      HeadsRecoloured(ret.spans);
      ret.spans := ret.spans[|ret.spans| - 1 := ret.spans[|ret.spans| - 1].(kind := HighlightError)];
    }
  }

  /** A list that ends with nothing after its last delimiter makes that delimiter an error. */
  function LastFailed(spans: seq<Span>): seq<Span>
    requires spans != []
  {
    spans[|spans| - 1 := spans[|spans| - 1].(kind := HighlightError)]
  }

  /**
   The entries before `from` are recorded, with their commas. A comma at the very end is
   still to become an error.
   */
  ghost predicate Listing(text: Text, v: Validators, field: Field, before: seq<Span>, spans: seq<Span>, start: nat,
                          from: nat, end: nat) {
    && start <= from <= end <= |text| && (from > start ==> spans != [] && spans[|spans| - 1].kind == HighlightDelimiter)
    && before + ListSpans(text, v, field, start, end) ==
      (if start < from == end then LastFailed(spans) else spans + ListSpans(text, v, field, from, end))
  }

  lemma ListBegins(text: Text, v: Validators, field: Field, spans: seq<Span>, start: nat, end: nat)
    requires start <= end <= |text|
    ensures Listing(text, v, field, spans, spans, start, start, end)
  {
  }

  /** One more entry and its comma. */
  lemma ListComma(text: Text, v: Validators, field: Field, before: seq<Span>, spans: seq<Span>, start: nat, from: nat,
                  end: nat, piece: nat, last: nat, i: nat)
    requires Listing(text, v, field, before, spans, start, from, end) && from <= i < end && text[i] == ',' as int
    requires Without(text, ',' as int, from, i) && piece <= i && Piece(text, from, piece, i - piece, last, i)
    ensures piece + last <= |text|
    ensures var more := spans + EntrySpans(text, v, field, piece, last) + [Span(HighlightDelimiter, i, 1)];
      Listing(text, v, field, before, more, start, i + 1, end)
  {
    hide EntrySpans, ListSpans, Skip, Trim, FirstOf;
    EntryAt(text, v, field, from, end, piece, last, i);
    NoEntries(text, v, field, end);
    var entry, rest := EntrySpans(text, v, field, piece, last), ListSpans(text, v, field, i + 1, end);
    var more := spans + entry + [Span(HighlightDelimiter, i, 1)];
    if i + 1 == end {
      assert spans + (entry + [Span(HighlightError, i, 1)] + rest) == LastFailed(more);
    } else {
      assert spans + (entry + [Span(HighlightDelimiter, i, 1)] + rest) == more + rest;
    }
  }

  lemma NoEntries(text: Text, v: Validators, field: Field, end: nat)
    requires end <= |text|
    ensures ListSpans(text, v, field, end, end) == []
  {
  }

  lemma EntryAt(text: Text, v: Validators, field: Field, from: nat, end: nat, piece: nat, last: nat, i: nat)
    requires from <= i <= end <= |text| && from < end && (i < end ==> text[i] == ',' as int)
    requires Without(text, ',' as int, from, i) && piece <= i && Piece(text, from, piece, i - piece, last, i)
    ensures piece + last <= |text|
    ensures i == end ==> ListSpans(text, v, field, from, end) == EntrySpans(text, v, field, piece, last)
    ensures i < end ==> (ListSpans(text, v, field, from, end) ==
      EntrySpans(text, v, field, piece, last)
      + [Span(if i + 1 == end then HighlightError else HighlightDelimiter, i, 1)]
      + ListSpans(text, v, field, i + 1, end))
  {
    hide EntrySpans;
    FirstIs(text, ',' as int, from, end, i);
    SkipIs(text, from, i, piece);
    TrimIs(text, piece, i, piece + last);
  }

  /** The end of the value: one more entry, or a comma with nothing after it. */
  lemma ListEnds(text: Text, v: Validators, field: Field, before: seq<Span>, spans: seq<Span>, start: nat, from: nat,
                 end: nat, piece: nat, len: nat, last: nat)
    requires Listing(text, v, field, before, spans, start, from, end) && Piece(text, from, piece, len, last, end)
    requires Without(text, ',' as int, from, end)
    ensures piece + last <= |text|
    ensures start < end && !Space(text[end - 1]) && last > 0 ==>
      before + ListSpans(text, v, field, start, end) == spans + EntrySpans(text, v, field, piece, last)
    ensures start < end && !Space(text[end - 1]) && last == 0 ==>
      spans != [] && spans[|spans| - 1].kind == HighlightDelimiter
      && before + ListSpans(text, v, field, start, end) == LastFailed(spans)
  {
    hide EntrySpans, Skip, Trim, FirstOf;
    if start < end && !Space(text[end - 1]) {
      if last > 0 {
        EntryAt(text, v, field, from, end, piece, last, end);
      } else {
        assert from == end;
      }
    }
  }

  lemma HeadsRecoloured(spans: seq<Span>)
    requires spans != [] && !IsHead(spans[|spans| - 1].kind)
    ensures Heads(LastFailed(spans)) == Heads(spans)
  {
    assert LastFailed(spans)[..|spans| - 1] == spans[..|spans| - 1];
  }

  lemma PieceStart(text: Text, i: nat)
    requires i <= |text|
    ensures Piece(text, i, i, 0, 0, i)
  {
  }

  lemma PieceShape(text: Text, from: nat, start: nat, len: nat, last: nat, i: nat)
    requires Piece(text, from, start, len, last, i)
    ensures from <= start && start + len == i <= |text| && last <= len && (len > 0 ==> last > 0)
  {
  }

  lemma PieceSolid(text: Text, from: nat, start: nat, len: nat, last: nat, i: nat)
    requires Piece(text, from, start, len, last, i) && len > 0
    ensures start + last <= |text| && last > 0 && !Space(text[start + last - 1])
  {
  }

  /** The colour of a single value. */
  method SingleValue(text: Text, v: Validators, start: nat, len: nat, field: Field) returns (kind: Kind)
    requires start + len <= |text| && len > 0
    ensures kind == ValueColour(text, v, field, start, len)
  {
    hide IsKeyText;
    match field
    case PrivateKey | PublicKey | PresharedKey =>
      var valid := IsValidKey(text[start..start + len]);
      kind := if !valid then HighlightError else
        match field
        case PrivateKey => HighlightPrivateKey
        case PublicKey => HighlightPublicKey
        case _ => HighlightPresharedKey;
    case MTU =>
      kind := if v.mtu(start, len) then HighlightMTU else HighlightError;
    case SaveConfig =>
      kind := if v.saveConfig(start, len) then HighlightSaveConfig else HighlightError;
    case FwMark =>
      kind := if v.fwmark(start, len) then HighlightFwMark else HighlightError;
    case Table =>
      kind := if v.table(start, len) then HighlightTable else HighlightError;
    case PreUp | PostUp | PreDown | PostDown =>
      kind := HighlightCmd;
    case ListenPort =>
      kind := if v.port(start, len) then HighlightPort else HighlightError;
    case PersistentKeepalive =>
      kind := if v.keepalive(start, len) then HighlightKeepalive else HighlightError;
    case _ =>
      kind := HighlightError;
  }

  lemma ColourEarned(text: Text, v: Validators, field: Field, start: nat, len: nat)
    requires start + len <= |text| && len > 0
    ensures Earned(text, v, Span(ValueColour(text, v, field, start, len), start, len))
    ensures !IsHead(ValueColour(text, v, field, start, len))
  {
    hide IsKeyText, GetSection, GetField;
  }

  method HighlightValue(ret: SpanArray, text: Text, v: Validators, start: nat, len: nat, field: Field)
    requires Covers(text, v, ret.spans, start) && start + len <= |text| && ret.spans != []
    modifies ret
    ensures Covers(text, v, ret.spans, start + len)
    ensures field !in {Endpoint, Address, DNS, AllowedIPs} && len > 0 ==>
      ret.spans == old(ret.spans) + [Span(ValueColour(text, v, field, start, len), start, len)]
    ensures len > 0 && !Space(text[start + len - 1]) ==>
      ret.spans == old(ret.spans) + ValueSpans(text, v, field, start, len)
    ensures Heads(ret.spans) == old(Heads(ret.spans))
  {
    hide Covers, Heads, Earned, ValueColour, EndpointSpans, ListSpans;
    match field
    case Endpoint =>
      HighlightEndpoint(ret, text, v, start, len);
    case Address | DNS | AllowedIPs =>
      HighlightMultivalue(ret, text, v, start, len, field);
    case _ =>
      if len > 0 {
        var kind := SingleValue(text, v, start, len, field);
        ColourEarned(text, v, field, start, len);
        ret.AppendNext(text, v, start, len, kind);
      }
  }

  // ---------------------------------------------------------------- the scan

  /**
   The scan at position i. What lies before the pending piece has been dealt with; a
   pending value also owns its equals sign.
   */
  ghost predicate Scanning(text: Text, v: Validators, spans: seq<Span>, state: State, i: nat, start: nat, len: nat,
                           last: nat, equals: nat) {
    match state
    case OnNone => len == 0 && start == i <= |text| && Covers(text, v, spans, i)
    case OnKey | OnSection =>
      len > 0 && Piece(text, start, start, len, last, i) && Covers(text, v, spans, start)
    case OnValue =>
      && equals < |text| && text[equals] == '=' as int && Covers(text, v, spans, equals) && start <= i
      && (if len == 0 then start == i <= |text| && equals < start && Spaces(text, equals + 1, i)
          else Piece(text, equals + 1, start, len, last, i))
    case OnComment =>
      && len > 0 && start + len == i <= |text| && Covers(text, v, spans, start)
      && text[start] == '#' as int && forall p :: start <= p < i ==> text[p] != '\n' as int
  }

  /** The end of a line, of the text, or the beginning of a comment: the pending piece is recorded. */
  method Flush(ret: SpanArray, text: Text, v: Validators, state: State, i: nat, start: nat, len: nat, last: nat,
               equals: nat, field: Field, section: Field) returns (newSection: Field)
    requires Scanning(text, v, ret.spans, state, i, start, len, last, equals)
    requires i < |text| && state == OnComment ==> text[i] == '\n' as int
    modifies ret
    ensures i <= |text| && Covers(text, v, ret.spans, i)
    ensures newSection == SectionFlushed(text, section, state, start, last)
    ensures state in {OnKey, OnSection} || (state == OnValue && len > 0) ==> start + last <= |text|
    ensures ret.spans == old(ret.spans) + Flushed(text, v, state, start, len, last, equals, field)
    ensures Heads(ret.spans) ==
      if state == OnSection && newSection != Invalid then old(Heads(ret.spans)) + [Span(HighlightSection, start, last)]
      else old(Heads(ret.spans))
  {
    hide Covers, Piece, Heads, GetSection, GetField, IsKeyText, ValueSpans;
    newSection := section;
    match state
    case OnNone =>
    case OnKey =>
      PieceCovers(text, v, ret.spans, start, start, len, last, i);
      PieceShape(text, start, start, len, last, i);
      ret.AppendNext(text, v, start, last, HighlightError);
    case OnValue =>
      if len > 0 {
        PieceShape(text, equals + 1, start, len, last, i);
        ret.AppendNext(text, v, equals, 1, HighlightDelimiter);
        PieceCovers(text, v, ret.spans, equals + 1, start, len, last, i);
        PieceSolid(text, equals + 1, start, len, last, i);
        HighlightValue(ret, text, v, start, last, field);
      } else {
        ret.AppendNext(text, v, equals, 1, HighlightError);
        CoversBlanks(text, v, ret.spans, equals + 1, i);
      }
    case OnSection =>
      PieceCovers(text, v, ret.spans, start, start, len, last, i);
      PieceShape(text, start, start, len, last, i);
      newSection := GetSection(text[start..start + last]);
      ret.AppendNext(text, v, start, last, if newSection == Invalid then HighlightError else HighlightSection);
    case OnComment =>
      ret.AppendNext(text, v, start, len, HighlightComment);
  }

  /** A character that is neither an end nor an equals sign after a key. */
  lemma ScanOn(text: Text, v: Validators, spans: seq<Span>, state: State, i: nat, start: nat, len: nat, last: nat,
               equals: nat)
    requires Scanning(text, v, spans, state, i, start, len, last, equals) && i < |text|
    ensures state == OnComment && text[i] != '\n' as int ==>
      Scanning(text, v, spans, OnComment, i + 1, start, len + 1, last, equals)
    ensures state != OnComment && Space(text[i]) && i == start && len == 0 ==>
      Scanning(text, v, spans, state, i + 1, start + 1, len, last, equals)
    ensures state != OnComment && Space(text[i]) && !(i == start && len == 0) ==>
      Scanning(text, v, spans, state, i + 1, start, len + 1, last, equals)
    ensures state != OnComment && state != OnNone && !Space(text[i]) ==>
      Scanning(text, v, spans, state, i + 1, start, len + 1, len + 1, equals)
    ensures state == OnNone && !Space(text[i]) ==>
      Scanning(text, v, spans, OnKey, i + 1, start, len + 1, len + 1, equals)
      && Scanning(text, v, spans, OnSection, i + 1, start, len + 1, len + 1, equals)
  {
    hide Covers;
    if state == OnNone {
      assert Piece(text, i, i, 0, 0, i);
      PieceStep(text, i, i, 0, 0, i);
      if Space(text[i]) {
        CoversBlanks(text, v, spans, i, i + 1);
      }
    } else if state == OnKey || state == OnSection {
      PieceStep(text, start, start, len, last, i);
    } else if state == OnValue {
      if len == 0 {
        assert Piece(text, equals + 1, i, 0, 0, i);
        PieceStep(text, equals + 1, i, 0, 0, i);
      } else {
        PieceStep(text, equals + 1, start, len, last, i);
      }
    }
  }

  /** highlight_config: spans in order, inside the text, over everything that is not blank, then the end mark. */
  method HighlightConfig(text: Text, v: Validators) returns (spans: seq<Span>)
    ensures |spans| > 0 && spans[|spans| - 1] == Span(HighlightEnd, 0, SIZE_MAX)
    ensures Covers(text, v, spans[..|spans| - 1], |text|)
    ensures FieldsBelong(text, Heads(spans[..|spans| - 1]))
    ensures spans[..|spans| - 1] == AllSpans(text, v, Invalid, 0)
    ensures forall k :: 0 <= k < |spans| - 1 && spans[k].kind == HighlightError ==> Excused(text, v, spans[k])
  {
    hide Covers, Scanning, GetField, GetSection, SectionFor, IsKeyText, Heads, FieldsBelong, LastSection;
    hide InLine, AllSpans, SectionAfter, Flushed, KeySpan, FieldBefore, Excused;
    var ret := new SpanArray();
    var start: nat, len: nat, last: nat, equals: nat := 0, 0, 0, 0;
    var section, field, state := Invalid, Invalid, OnNone;
    var i: nat := 0;
    ghost var done: seq<Span>, line: nat, key: nat, lineSection := [], 0, 0, Invalid;
    ScanBegin(text, v);
    LineBegins(text, v, lineSection, done, line, key, field, equals);
    while i <= |text|
      invariant i <= |text| && fresh(ret)
      invariant Scanning(text, v, ret.spans, state, i, start, len, last, equals)
      invariant FieldsBelong(text, Heads(ret.spans))
      invariant section == Invalid || section == LastSection(text, Heads(ret.spans))
      invariant InLine(text, v, lineSection, done, line, key, ret.spans, field, state, i, start, len, last, equals)
      invariant line <= |text| && done + AllSpans(text, v, lineSection, line) == AllSpans(text, v, Invalid, 0)
      invariant section == SectionSoFar(text, lineSection, state, line, start)
      decreases |text| - i
    {
      ghost var heads, before := Heads(ret.spans), ret.spans;
      if i == |text| || text[i] == '\n' as int || (state != OnComment && text[i] == '#' as int) {
        section := Flush(ret, text, v, state, i, start, len, last, equals, field, section);
        if state == OnSection && section != Invalid {
          BelongSnoc(text, heads, Span(HighlightSection, start, last));
        }
        LineOver(text, v, lineSection, done, line, key, before, field, state, i, start, len, last, equals);
        if i == |text| {
          break;
        }
        last, field := 0, Invalid;
        NewLine(text, v, ret.spans, i, equals);
        if text[i] == '#' as int {
          start, len, state := i, 1, OnComment;
        } else {
          start, len, state := i + 1, 0, OnNone;
          done, line, lineSection := ret.spans, i + 1, section;
          LineBegins(text, v, lineSection, done, line, key, field, equals);
        }
      } else {
        ScanOn(text, v, ret.spans, state, i, start, len, last, equals);
        LineOn(text, v, lineSection, done, line, key, ret.spans, field, state, i, start, len, last, equals);
        if state == OnComment {
          len := len + 1;
        } else if Space(text[i]) {
          if i == start && len == 0 {
            start := start + 1;
          } else {
            len := len + 1;
          }
        } else if text[i] == '=' as int && state == OnKey {
          KeyDone(text, v, ret.spans, i, start, len, last, equals);
          LineEquals(text, v, lineSection, done, line, key, ret.spans, field, i, start, len, last, equals);
          key := start;
          len := last;
          field := GetField(text[start..start + len]);
          var s := SectionFor(field);
          var known := s != Invalid && field != Invalid && s == section;
          if len > 0 && known {
            BelongSnoc(text, heads, Span(HighlightField, start, len));
          }
          ret.AppendNext(text, v, start, len, if !known then HighlightError else HighlightField);
          equals := i;
          start, len, state := i + 1, 0, OnValue;
          ValueBegins(text, v, ret.spans, i, last);
        } else {
          if state == OnNone {
            state := if text[i] == '[' as int then OnSection else OnKey;
          }
          len := len + 1;
          last := len;
        }
      }
      i := i + 1;
    }
    ErrorsExcused(text, v);
    ret.Append(0, SIZE_MAX, HighlightEnd);
    return ret.spans;
  }

  lemma ScanBegin(text: Text, v: Validators)
    ensures Scanning(text, v, [], OnNone, 0, 0, 0, 0, 0)
    ensures FieldsBelong(text, Heads([]))
  {
  }

  lemma NewLine(text: Text, v: Validators, spans: seq<Span>, i: nat, equals: nat)
    requires i < |text| && Covers(text, v, spans, i)
    ensures text[i] == '#' as int ==> Scanning(text, v, spans, OnComment, i + 1, i, 1, 0, equals)
    ensures Blank(text[i]) ==> Scanning(text, v, spans, OnNone, i + 1, i + 1, 0, 0, equals)
  {
  }

  lemma KeyDone(text: Text, v: Validators, spans: seq<Span>, i: nat, start: nat, len: nat, last: nat, equals: nat)
    requires Scanning(text, v, spans, OnKey, i, start, len, last, equals)
    ensures Covers(text, v, spans, start) && start + last <= i <= |text|
    ensures forall after :: Covers(text, v, after, start + last) ==> Covers(text, v, after, i)
  {
    PieceCovers(text, v, spans, start, start, len, last, i);
  }

  lemma ValueBegins(text: Text, v: Validators, spans: seq<Span>, i: nat, last: nat)
    requires i < |text| && text[i] == '=' as int && Covers(text, v, spans, i)
    ensures Scanning(text, v, spans, OnValue, i + 1, i + 1, 0, last, i)
  {
  }
}
