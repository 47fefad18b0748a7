/**
 * Network discovery of Solarman data loggers (discovery.py): each UDP reply to the
 * discovery broadcast is a text "ip,mac,serial[,...]"; `scan_network` keeps the replies
 * whose third field is an integer and lists them in arrival order.
 *
 * The socket is not modelled: the replies are given as the texts `recvfrom` returned,
 * already decoded, in the order they arrived until the timeout ended the scan.
 */
module Discovery {
  import opened Common

  // ---------------------------------------------------------------------------
  // str.strip()
  // ---------------------------------------------------------------------------

  /** Python's whitespace (`str.isspace`): tab to carriage return, the file/group/record/unit
      separators and space, NEL, no-break space, the Ogham space mark, the en quad to the
      hair space, the line and paragraph separators, the narrow no-break space, the medium
      mathematical space and the ideographic space. */
  predicate IsSpace(c: char) {
    var n := c as int;
    (0x09 <= n <= 0x0D) || (0x1C <= n <= 0x20) || n == 0x85 || n == 0xA0 || n == 0x1680
      || (0x2000 <= n <= 0x200A) || n == 0x2028 || n == 0x2029 || n == 0x202F || n == 0x205F || n == 0x3000
  }

  predicate AllSpace(s: string) {
    forall i | 0 <= i < |s| :: IsSpace(s[i])
  }

  /** A text `strip()` leaves alone: empty, or neither end is whitespace. */
  predicate Stripped(s: string) {
    s == [] || (!IsSpace(s[0]) && !IsSpace(s[|s| - 1]))
  }

  /** The number of whitespace characters `s` starts with. */
  function Lead(s: string): (n: nat)
    ensures n <= |s|
    ensures AllSpace(s[..n])
    ensures n < |s| ==> !IsSpace(s[n])
  {
    if s == [] || !IsSpace(s[0]) then 0 else 1 + Lead(s[1..])
  }

  /** The number of whitespace characters `s` ends with. */
  function Trail(s: string): (n: nat)
    ensures n <= |s|
    ensures AllSpace(s[|s| - n..])
    ensures n < |s| ==> !IsSpace(s[|s| - 1 - n])
  {
    if s == [] || !IsSpace(s[|s| - 1]) then 0 else 1 + Trail(s[..|s| - 1])
  }

  /** `s.strip()`: whitespace removed from both ends, nothing else. */
  function Strip(s: string): (r: string)
    ensures |r| <= |s| && Stripped(r)
    ensures r == [] <==> AllSpace(s)
  {
    var a := Lead(s);
    if a == |s| then [] else s[a..|s| - Trail(s)]
  }

  lemma {:induction false} LeadOf(pre: string, rest: string)
    requires AllSpace(pre) && (rest == [] || !IsSpace(rest[0]))
    ensures Lead(pre + rest) == |pre|
    decreases |pre|
  {
    if pre != [] {
      assert (pre + rest)[1..] == pre[1..] + rest;
      LeadOf(pre[1..], rest);
    } else {
      assert pre + rest == rest;
    }
  }

  lemma {:induction false} TrailOf(rest: string, post: string)
    requires AllSpace(post) && (rest == [] || !IsSpace(rest[|rest| - 1]))
    ensures Trail(rest + post) == |post|
    decreases |post|
  {
    if post != [] {
      var n := |post| - 1;
      assert (rest + post)[..|rest + post| - 1] == rest + post[..n];
      TrailOf(rest, post[..n]);
    } else {
      assert rest + post == rest;
    }
  }

  /** `strip()` removes exactly the surrounding whitespace: a text padded on both sides with
      whitespace strips back to the text, whenever the text itself is stripped. */
  lemma StripPadded(pre: string, core: string, post: string)
    requires AllSpace(pre) && AllSpace(post) && Stripped(core)
    ensures Strip(pre + core + post) == core
  {
    var s := pre + core + post;
    if core == [] {
      assert s == pre + post;
      assert AllSpace(s);
    } else {
      assert !AllSpace(s) by {
        assert s[|pre|] == core[0];
      }
      assert s == pre + (core + post);
      LeadOf(pre, core + post);
      TrailOf(pre + core, post);
      assert s[|pre|..|s| - |post|] == core;
    }
  }

  /** A stripped text is its own `strip()`. */
  lemma StrippedStrip(s: string)
    requires Stripped(s)
    ensures Strip(s) == s
  {
    StripPadded([], s, []);
    assert [] + s + [] == s;
  }

  /** Stripping twice is stripping once. */
  lemma StripIdempotent(s: string)
    ensures Strip(Strip(s)) == Strip(s)
  {
    StrippedStrip(Strip(s));
  }

  // ---------------------------------------------------------------------------
  // str.split(",")
  // ---------------------------------------------------------------------------

  const COMMA := ','

  predicate NoComma(s: string) {
    forall i | 0 <= i < |s| :: s[i] != COMMA
  }

  function Commas(s: string): nat {
    if s == [] then 0 else (if s[0] == COMMA then 1 else 0) + Commas(s[1..])
  }

  /** `s.split(",")`: one field more than there are commas, none holding a comma. */
  function Split(s: string): (r: seq<string>)
    ensures |r| == Commas(s) + 1
    ensures forall i | 0 <= i < |r| :: NoComma(r[i])
  {
    if s == [] then [[]]
    else
      var t := Split(s[1..]);
      if s[0] == COMMA then [[]] + t else [[s[0]] + t[0]] + t[1..]
  }

  /** `",".join(fields)`. */
  function Join(fields: seq<string>): string
    requires |fields| >= 1
  {
    if |fields| == 1 then fields[0] else fields[0] + [COMMA] + Join(fields[1..])
  }

  /** Joining the fields `split` returns gives back the text. */
  lemma {:induction false} JoinSplit(s: string)
    ensures Join(Split(s)) == s
    decreases |s|
  {
    if s != [] {
      JoinSplit(s[1..]);
      var t := Split(s[1..]);
      if s[0] == COMMA {
        assert ([[]] + t)[1..] == t;
      } else {
        var r := [[s[0]] + t[0]] + t[1..];
        if |t| > 1 {
          assert r[1..] == t[1..];
        }
      }
    }
  }

  lemma {:induction false} SplitField(f: string, rest: string)
    requires NoComma(f)
    ensures Split(f + rest) == [f + Split(rest)[0]] + Split(rest)[1..]
    decreases |f|
  {
    if f == [] {
      assert f + rest == rest;
      assert f + Split(rest)[0] == Split(rest)[0];
      assert [Split(rest)[0]] + Split(rest)[1..] == Split(rest);
    } else {
      assert (f + rest)[1..] == f[1..] + rest;
      SplitField(f[1..], rest);
      assert [f[0]] + (f[1..] + Split(rest)[0]) == f + Split(rest)[0];
    }
  }

  /** Splitting joined comma-free fields gives back the fields. */
  lemma {:induction false} SplitJoin(fields: seq<string>)
    requires |fields| >= 1 && forall i | 0 <= i < |fields| :: NoComma(fields[i])
    ensures Split(Join(fields)) == fields
    decreases |fields|
  {
    if |fields| == 1 {
      SplitField(fields[0], []);
      assert fields[0] + [] == fields[0];
    } else {
      var rest := Join(fields[1..]);
      SplitJoin(fields[1..]);
      var tail := [COMMA] + rest;
      assert fields[0] + [COMMA] + rest == fields[0] + tail;
      assert tail[0] == COMMA && tail[1..] == rest;
      assert Split(tail) == [[]] + fields[1..];
      SplitField(fields[0], tail);
      assert fields[0] + [] == fields[0];
      assert [fields[0]] + fields[1..] == fields;
    }
  }

  lemma {:induction false} JoinEnds(fields: seq<string>)
    requires |fields| >= 1
    ensures fields[0] != [] ==> Join(fields) != [] && Join(fields)[0] == fields[0][0]
    ensures var last := fields[|fields| - 1];
      last != [] ==> Join(fields) != [] && Join(fields)[|Join(fields)| - 1] == last[|last| - 1]
    decreases |fields|
  {
    if |fields| > 1 {
      JoinEnds(fields[1..]);
    }
  }

  // ---------------------------------------------------------------------------
  // int(text)
  // ---------------------------------------------------------------------------

  /** Decimal digits with single underscores between digits, as `int()` accepts them. */
  predicate Grouped(s: string) {
    && s != [] && IsDigit(s[0]) && IsDigit(s[|s| - 1])
    && (forall i | 0 <= i < |s| :: IsDigit(s[i]) || s[i] == '_')
    && SingleUnderscores(s)
  }

  /** No two underscores in a row. */
  predicate SingleUnderscores(s: string)
    decreases |s|
  {
    |s| < 2 || (!(s[0] == '_' && s[1] == '_') && SingleUnderscores(s[1..]))
  }

  lemma {:induction false} DigitsSingleUnderscores(s: string)
    requires forall i | 0 <= i < |s| :: IsDigit(s[i])
    ensures SingleUnderscores(s)
    decreases |s|
  {
    if |s| >= 2 {
      DigitsSingleUnderscores(s[1..]);
    }
  }

  /** The digits of `s`, underscores dropped. */
  function Digits(s: string): (r: string)
    requires forall i | 0 <= i < |s| :: IsDigit(s[i]) || s[i] == '_'
    ensures forall i | 0 <= i < |r| :: IsDigit(r[i])
    ensures |r| <= |s|
  {
    if s == [] then [] else (if s[0] == '_' then [] else [s[0]]) + Digits(s[1..])
  }

  /** `int()` on a text without surrounding whitespace: an optional sign, then grouped
      digits; anything else raises `ValueError`, here `None`. */
  function ParseSigned(t: string): Option<int> {
    if t != [] && (t[0] == '+' || t[0] == '-') then
      var body := t[1..];
      if Grouped(body) then
        var v: int := DigitsValue(Digits(body));
        Some(if t[0] == '-' then -v else v)
      else None
    else if Grouped(t) then Some(DigitsValue(Digits(t)))
    else None
  }

  /** The whitespace `int()` skips around its argument: Python's whitespace without the file,
      group, record and unit separators U+001C to U+001F, which `str.strip` removes but `int()`
      rejects. */
  predicate IntSpace(c: char) {
    IsSpace(c) && !IsSeparator(c)
  }

  /** One of the information separators U+001C to U+001F. */
  predicate IsSeparator(c: char) {
    0x1C <= c as int <= 0x1F
  }

  predicate NoSeparator(s: string) {
    forall i | 0 <= i < |s| :: !IsSeparator(s[i])
  }

  /** The number of characters `int()` skips at the start of `s`. */
  function IntLead(s: string): (n: nat)
    ensures n <= |s|
    ensures forall i | 0 <= i < n :: IntSpace(s[i])
    ensures n < |s| ==> !IntSpace(s[n])
  {
    if s == [] || !IntSpace(s[0]) then 0 else 1 + IntLead(s[1..])
  }

  /** The number of characters `int()` skips at the end of `s`. */
  function IntTrail(s: string): (n: nat)
    ensures n <= |s|
    ensures forall i | |s| - n <= i < |s| :: IntSpace(s[i])
    ensures n < |s| ==> !IntSpace(s[|s| - 1 - n])
  {
    if s == [] || !IntSpace(s[|s| - 1]) then 0 else 1 + IntTrail(s[..|s| - 1])
  }

  /** The text `int()` reads once it has skipped its surrounding whitespace. */
  function IntStrip(s: string): (r: string)
    ensures |r| <= |s|
    ensures r != [] ==> !IntSpace(r[0]) && !IntSpace(r[|r| - 1])
  {
    var a := IntLead(s);
    if a == |s| then [] else s[a..|s| - IntTrail(s)]
  }

  /** `int(text)` in base 10: the whitespace it skips is ignored. */
  function ParseInt(text: string): Option<int> {
    ParseSigned(IntStrip(text))
  }

  /** Without separators, `int()` skips the same leading characters as `str.strip`. */
  lemma {:induction false} IntLeadIsLead(s: string)
    requires NoSeparator(s)
    ensures IntLead(s) == Lead(s)
    decreases |s|
  {
    if s != [] && IntSpace(s[0]) {
      IntLeadIsLead(s[1..]);
    }
  }

  /** Without separators, `int()` skips the same trailing characters as `str.strip`. */
  lemma {:induction false} IntTrailIsTrail(s: string)
    requires NoSeparator(s)
    ensures IntTrail(s) == Trail(s)
    decreases |s|
  {
    if s != [] && IntSpace(s[|s| - 1]) {
      IntTrailIsTrail(s[..|s| - 1]);
    }
  }

  /** A text `str.strip` leaves alone is read by `int()` as it is. */
  lemma StrippedIntStrip(t: string)
    requires Stripped(t)
    ensures IntStrip(t) == t
  {
    if t != [] {
      assert IntLead(t) == 0 && IntTrail(t) == 0;
      assert t[0..|t|] == t;
    }
  }

  lemma {:induction false} DigitsOfDigits(s: string)
    requires forall i | 0 <= i < |s| :: IsDigit(s[i])
    ensures Digits(s) == s
    decreases |s|
  {
    if s != [] {
      DigitsOfDigits(s[1..]);
      assert [s[0]] + s[1..] == s;
    }
  }

  lemma DecimalStringParses(n: nat)
    ensures Grouped(DecimalString(n)) && DigitsValue(Digits(DecimalString(n))) == n
  {
    DigitsOfDigits(DecimalString(n));
    DigitsSingleUnderscores(DecimalString(n));
    DecimalStringValue(n);
  }

  /** Grouped digits after a minus sign read as the negated value. */
  lemma SignedNegative(s: string, v: nat)
    requires Grouped(s) && DigitsValue(Digits(s)) == v
    ensures ParseSigned("-" + s) == Some(-(v as int))
  {
    assert ("-" + s)[1..] == s;
  }

  /** `str(n)` has no surrounding whitespace. */
  lemma IntStringStripped(n: int)
    ensures Stripped(IntString(n))
  {
    var s := IntString(n);
    var digits := DecimalString(if n >= 0 then n else -n);
    assert IsDigit(digits[|digits| - 1]) && IsDigit(digits[0]);
    assert s[|s| - 1] == digits[|digits| - 1];
    assert s[0] == '-' || s[0] == digits[0];
  }

  /** `str(n)` read by `int()` once its (absent) whitespace is skipped. */
  lemma ParseSignedIntString(n: int)
    ensures ParseSigned(IntString(n)) == Some(n)
  {
    if n >= 0 {
      DecimalStringParses(n);
      assert IntString(n) == DecimalString(n);
    } else {
      var s := DecimalString(-n);
      DecimalStringParses(-n);
      SignedNegative(s, -n);
      assert IntString(n) == "-" + s;
    }
  }

  /** `int(str(n)) == n` for every integer. */
  lemma ParseIntRoundTrip(n: int)
    ensures ParseInt(IntString(n)) == Some(n)
  {
    IntStringStripped(n);
    StrippedIntStrip(IntString(n));
    ParseSignedIntString(n);
  }

  /** `int()` skips surrounding whitespace itself, so stripping first changes nothing, as long
      as the text holds no separator U+001C to U+001F (which `strip()` removes and `int()`
      rejects). */
  lemma ParseIntStrip(text: string)
    requires NoSeparator(text)
    ensures ParseInt(Strip(text)) == ParseInt(text)
  {
    IntLeadIsLead(text);
    IntTrailIsTrail(text);
    assert IntStrip(text) == Strip(text);
    StrippedIntStrip(Strip(text));
  }

  /** A separator is where the two differ: Python's `int("\x1c5")` raises, `int("\x1c5".strip())` is 5. */
  lemma SeparatorNotSkipped()
    ensures ParseInt("\U{1C}5") == None
    ensures ParseInt(Strip("\U{1C}5")) == Some(5)
  {
    assert !IntSpace('\U{1C}') && IsSpace('\U{1C}');
    assert IntStrip("\U{1C}5") == "\U{1C}5";
    assert Strip("\U{1C}5") == "5" by {
      StripPadded("\U{1C}", "5", []);
      assert "\U{1C}" + "5" + [] == "\U{1C}5";
    }
    assert Stripped("5");
    StrippedIntStrip("5");
    DecimalStringParses(5);
    assert DecimalString(5) == "5";
  }

  /** A character that is neither a digit, an underscore nor a leading sign makes `int()`
      raise. */
  lemma ParseIntRejects(text: string, k: nat)
    requires k < |IntStrip(text)|
    requires var c := IntStrip(text)[k]; !IsDigit(c) && c != '_' && !(k == 0 && (c == '+' || c == '-'))
    ensures ParseInt(text) == None
  {
    var t := IntStrip(text);
    if t[0] == '+' || t[0] == '-' {
      assert t[1..][k - 1] == t[k];
    }
  }

  // ---------------------------------------------------------------------------
  // scan_network
  // ---------------------------------------------------------------------------

  /** `DiscoveredDevice`. */
  datatype Device = Device(ip: string, mac: string, serial: int)

  /** The parse of one reply inside `scan_network`: strip, split on commas, and with at
      least three fields take the stripped first two and the integer of the third. */
  function ParseResponse(text: string): (r: Option<Device>)
    ensures r.Some? ==> Stripped(r.value.ip) && Stripped(r.value.mac)
  {
    var parts := Split(Strip(text));
    if |parts| < 3 then None
    else match ParseInt(Strip(parts[2]))
      case None => None
      case Some(serial) => Some(Device(Strip(parts[0]), Strip(parts[1]), serial))
  }

  /** A reply with fewer than two commas after stripping gives no device. */
  lemma FewFieldsIgnored(text: string)
    requires Commas(Strip(text)) < 2
    ensures ParseResponse(text) == None
  {
  }

  /** A reply that is comma-separated fields reads as its first three: the device, when the
      third is an integer, with the first two stripped; further fields do not matter. */
  lemma ResponseFields(fields: seq<string>)
    requires |fields| >= 3 && forall i | 0 <= i < |fields| :: NoComma(fields[i])
    requires Stripped(Join(fields))
    ensures ParseResponse(Join(fields))
      == match ParseInt(Strip(fields[2]))
         case None => None
         case Some(serial) => Some(Device(Strip(fields[0]), Strip(fields[1]), serial))
  {
    StrippedStrip(Join(fields));
    SplitJoin(fields);
  }

  /** The reply a logger with device `d` sends, with `extra` fields after the serial. */
  function Reply(d: Device, extra: seq<string>): seq<string> {
    [d.ip, d.mac, IntString(d.serial)] + extra
  }

  lemma ReplyShape(d: Device, extra: seq<string>)
    requires d.ip != [] && Stripped(d.ip) && NoComma(d.ip) && NoComma(d.mac)
    requires forall i | 0 <= i < |extra| :: NoComma(extra[i])
    requires extra != [] ==> extra[|extra| - 1] != [] && Stripped(extra[|extra| - 1])
    ensures forall i | 0 <= i < |Reply(d, extra)| :: NoComma(Reply(d, extra)[i])
    ensures Stripped(Join(Reply(d, extra)))
  {
    var serial := IntString(d.serial);
    var fields := Reply(d, extra);
    forall i | 0 <= i < |fields| ensures NoComma(fields[i]) {
      if i == 2 {
        assert forall j | 0 <= j < |serial| :: serial[j] == '-' || IsDigit(serial[j]);
      } else if i >= 3 {
        assert fields[i] == extra[i - 3];
      }
    }
    JoinEnds(fields);
    assert serial != [] && IsDigit(serial[|serial| - 1]);
  }

  /** A logger's reply "ip,mac,serial" followed by any further fields reads back as the
      device it describes. */
  lemma ResponseRoundTrip(d: Device, extra: seq<string>)
    requires d.ip != [] && Stripped(d.ip) && NoComma(d.ip) && Stripped(d.mac) && NoComma(d.mac)
    requires forall i | 0 <= i < |extra| :: NoComma(extra[i])
    requires extra != [] ==> extra[|extra| - 1] != [] && Stripped(extra[|extra| - 1])
    ensures ParseResponse(Join(Reply(d, extra))) == Some(d)
  {
    var fields := Reply(d, extra);
    assert (forall i | 0 <= i < |fields| :: NoComma(fields[i])) && Stripped(Join(fields)) by {
      ReplyShape(d, extra);
    }
    assert Strip(fields[0]) == d.ip by { StrippedStrip(d.ip); }
    assert Strip(fields[1]) == d.mac by { StrippedStrip(d.mac); }
    assert ParseInt(Strip(fields[2])) == Some(d.serial) by {
      IntStringStripped(d.serial);
      StrippedStrip(IntString(d.serial));
      ParseIntRoundTrip(d.serial);
    }
    ResponseFields(fields);
  }

  /** The devices of the parsed replies, in order: a reply that did not parse adds none. */
  function Devices(parsed: seq<Option<Device>>): (r: seq<Device>)
    ensures |r| <= |parsed|
    decreases |parsed|
  {
    if parsed == [] then []
    else
      var n := |parsed| - 1;
      match parsed[n]
      case None => Devices(parsed[..n])
      case Some(d) => Devices(parsed[..n]) + [d]
  }

  /** Each reply parsed on its own by `parse`. */
  function ParsedReplies(parse: string -> Option<Device>, responses: seq<string>): (p: seq<Option<Device>>)
    ensures |p| == |responses|
    decreases |responses|
  {
    if responses == [] then []
    else
      var n := |responses| - 1;
      ParsedReplies(parse, responses[..n]) + [parse(responses[n])]
  }

  lemma {:induction false} ParsedRepliesAt(parse: string -> Option<Device>, responses: seq<string>, i: nat)
    requires i < |responses|
    ensures ParsedReplies(parse, responses)[i] == parse(responses[i])
    decreases |responses|
  {
    var n := |responses| - 1;
    if i < n {
      ParsedRepliesAt(parse, responses[..n], i);
    }
  }

  lemma {:induction false} ParsedRepliesAppend(parse: string -> Option<Device>, r1: seq<string>, r2: seq<string>)
    ensures ParsedReplies(parse, r1 + r2) == ParsedReplies(parse, r1) + ParsedReplies(parse, r2)
    decreases |r2|
  {
    if r2 == [] {
      assert r1 + r2 == r1;
    } else {
      var n := |r2| - 1;
      assert (r1 + r2)[..|r1 + r2| - 1] == r1 + r2[..n];
      assert (r1 + r2)[|r1 + r2| - 1] == r2[n];
      ParsedRepliesAppend(parse, r1, r2[..n]);
    }
  }

  /** The devices `scan_network` lists for the replies in arrival order. */
  function Discovered(responses: seq<string>): seq<Device> {
    Devices(ParsedReplies(ParseResponse, responses))
  }

  /** Replies are handled one after another: the devices of two runs of replies are those of
      the first run followed by those of the second. */
  lemma {:induction false} DevicesAppend(p1: seq<Option<Device>>, p2: seq<Option<Device>>)
    ensures Devices(p1 + p2) == Devices(p1) + Devices(p2)
    decreases |p2|
  {
    if p2 == [] {
      assert p1 + p2 == p1;
    } else {
      var n := |p2| - 1;
      assert (p1 + p2)[..|p1 + p2| - 1] == p1 + p2[..n];
      assert (p1 + p2)[|p1 + p2| - 1] == p2[n];
      DevicesAppend(p1, p2[..n]);
    }
  }

  lemma DiscoveredAppend(r1: seq<string>, r2: seq<string>)
    ensures Discovered(r1 + r2) == Discovered(r1) + Discovered(r2)
  {
    ParsedRepliesAppend(ParseResponse, r1, r2);
    DevicesAppend(ParsedReplies(ParseResponse, r1), ParsedReplies(ParseResponse, r2));
  }

  /** A reply that does not parse is skipped and the scan goes on. */
  lemma InvalidReplySkipped(r1: seq<string>, text: string, r2: seq<string>)
    requires ParseResponse(text) == None
    ensures Discovered(r1 + [text] + r2) == Discovered(r1 + r2)
  {
    assert Discovered([text]) == [] by {
      assert ParsedReplies(ParseResponse, [text]) == [None];
      assert Devices([None]) == Devices([None][..0]);
    }
    DiscoveredAppend(r1 + [text], r2);
    DiscoveredAppend(r1, [text]);
    DiscoveredAppend(r1, r2);
  }

  /** A device is listed exactly when some parsed reply is that device. */
  lemma {:induction false} DevicesMembers(parsed: seq<Option<Device>>, d: Device)
    ensures d in Devices(parsed) <==> Some(d) in parsed
    decreases |parsed|
  {
    if parsed != [] {
      var n := |parsed| - 1;
      DevicesMembers(parsed[..n], d);
      assert parsed == parsed[..n] + [parsed[n]];
    }
  }

  /** A device is listed exactly when some reply parses to it. */
  lemma DiscoveredMembers(responses: seq<string>, d: Device)
    ensures d in Discovered(responses) <==> exists i | 0 <= i < |responses| :: ParseResponse(responses[i]) == Some(d)
  {
    var p := ParsedReplies(ParseResponse, responses);
    DevicesMembers(p, d);
    if Some(d) in p {
      var i :| 0 <= i < |p| && p[i] == Some(d);
      ParsedRepliesAt(ParseResponse, responses, i);
    }
    if exists i | 0 <= i < |responses| :: ParseResponse(responses[i]) == Some(d) {
      var i :| 0 <= i < |responses| && ParseResponse(responses[i]) == Some(d);
      ParsedRepliesAt(ParseResponse, responses, i);
      assert p[i] == Some(d);
    }
  }

  /** One more reply: its device, if it parses, goes after those found so far. */
  lemma DiscoveredSnoc(responses: seq<string>, i: nat)
    requires i < |responses|
    ensures var reply := ParseResponse(responses[i]);
      Discovered(responses[..i + 1]) == Discovered(responses[..i]) + (if reply.Some? then [reply.value] else [])
  {
    assert responses[..i + 1][..i] == responses[..i];
  }

  /** The receive loop of `scan_network`: each reply that parses appends its device. */
  method ScanNetwork(responses: seq<string>) returns (devices: seq<Device>)
    ensures devices == Discovered(responses)
  {
    devices := [];
    for i := 0 to |responses|
      invariant devices == Discovered(responses[..i])
    {
      DiscoveredSnoc(responses, i);
      var reply := ParseResponse(responses[i]);
      if reply.Some? {
        devices := devices + [reply.value];
      }
    }
    assert responses[..|responses|] == responses;
  }

  // ---------------------------------------------------------------------------
  // The replies the scan is expected to handle
  // ---------------------------------------------------------------------------

  /** A reply without commas gives no device. */
  lemma GarbageReply()
    ensures ParseResponse("garbage data") == None
  {
    StrippedStrip("garbage data");
    SplitJoin(["garbage data"]);
  }

  /** "not_a_number" is not an integer. */
  lemma NotANumber()
    ensures ParseInt("not_a_number") == None
  {
    StrippedStrip("not_a_number");
    ParseIntRejects("not_a_number", 0);
  }
}
