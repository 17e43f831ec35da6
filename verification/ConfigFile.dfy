/** The configuration file of kernel/drivers/netstack.c: its lines, its keys, and a save and load of it. */
module ConfigFile {
  import opened Machine
  import opened StaticConfig

  // ----- lines and keys -----

  predicate Blank(c: char) {
    c == ' ' || c == '\t'
  }

  predicate EndsToken(c: char) {
    c == '\n' || c == '\r' || Blank(c)
  }

  function LineLen(text: string): (n: nat)
    ensures n <= |text|
  {
    if text == [] || text[0] == '\n' then 0 else 1 + LineLen(text[1..])
  }

  function SkipBlanks(text: string): (rest: string)
    ensures |rest| <= |text|
  {
    if text != [] && Blank(text[0]) then SkipBlanks(text[1..]) else text
  }

  function TokenLen(text: string): (n: nat)
    ensures n <= |text|
  {
    if text == [] || EndsToken(text[0]) then 0 else 1 + TokenLen(text[1..])
  }

  /** The text begins with the key and a blank. */
  predicate KeyMatches(text: string, key: string) {
    |key| < |text| && text[..|key|] == key && Blank(text[|key|])
  }

  function NextLine(text: string): (rest: string)
    ensures text != [] ==> |rest| < |text|
  {
    var n := LineLen(text);
    if n < |text| then text[n + 1..] else []
  }

  /** The token after the first line that begins with the key; none if it is empty or does not fit
      a buffer of `cap` bytes. */
  function ReadValue(text: string, key: string, cap: nat): (value: Option<string>)
    decreases |text|
  {
    if text == [] then None
    else if KeyMatches(text, key) then
      var v := SkipBlanks(text[|key|..]);
      var n := TokenLen(v);
      if n == 0 || n >= cap then None else Some(v[..n])
    else ReadValue(NextLine(text), key, cap)
  }

  method BlanksFrom(text: string, i: nat) returns (j: nat)
    requires i <= |text|
    ensures i <= j <= |text| && text[j..] == SkipBlanks(text[i..])
  {
    j := i;
    while j < |text| && Blank(text[j])
      invariant i <= j <= |text| && SkipBlanks(text[j..]) == SkipBlanks(text[i..])
    {
      assert text[j..][1..] == text[j + 1..];
      j := j + 1;
    }
  }

  /** The token after the blanks at position `i`. */
  method TokenAt(text: string, i: nat, cap: nat) returns (value: Option<string>)
    requires i <= |text|
    ensures var v := SkipBlanks(text[i..]);
      var n := TokenLen(v);
      value == if n == 0 || n >= cap then None else Some(v[..n])
  {
    hide SkipBlanks;
    var j := BlanksFrom(text, i);
    ghost var v := text[j..];
    var len := 0;
    while j + len < |text| && !EndsToken(text[j + len])
      invariant j + len <= |text| && len + TokenLen(text[j + len..]) == TokenLen(v)
    {
      assert text[j + len..][1..] == text[j + len + 1..];
      len := len + 1;
    }
    if len == 0 || len >= cap {
      return None;
    }
    assert text[j..j + len] == v[..len];
    return Some(text[j..j + len]);
  }

  method LineEnd(text: string, line: nat) returns (p: nat)
    requires line <= |text|
    ensures p == line + LineLen(text[line..])
  {
    p := line;
    while p < |text| && text[p] != '\n'
      invariant line <= p <= |text| && p - line + LineLen(text[p..]) == LineLen(text[line..])
    {
      assert text[p..][1..] == text[p + 1..];
      p := p + 1;
    }
  }

  lemma NextLineAt(text: string, line: nat, p: nat)
    requires line < |text| && p == line + LineLen(text[line..])
    ensures NextLine(text[line..]) == if p < |text| then text[p + 1..] else text[p..]
  {
    if p < |text| {
      assert text[line..][p - line + 1..] == text[p + 1..];
    } else {
      assert text[p..] == [];
    }
  }

  /** The loop over the lines. */
  method FindValue(text: string, key: string, cap: nat) returns (value: Option<string>)
    ensures value == ReadValue(text, key, cap)
  {
    hide KeyMatches, SkipBlanks, TokenLen, NextLine, LineLen;
    var p := 0;
    assert text[0..] == text;
    while p < |text|
      invariant p <= |text| && ReadValue(text[p..], key, cap) == ReadValue(text, key, cap)
      decreases |text| - p
    {
      var line := p;
      p := LineEnd(text, line);
      if KeyMatches(text[line..], key) {
        KeyFits(text[line..], key);
        assert text[line..][|key|..] == text[line + |key|..];
        value := TokenAt(text, line + |key|, cap);
        return;
      }
      NextLineAt(text, line, p);
      if p < |text| {
        p := p + 1;
      }
    }
    return None;
  }

  lemma KeyFits(text: string, key: string)
    requires KeyMatches(text, key)
    ensures |key| < |text|
  {
  }

  // ----- the file -----

  datatype NetConfig = NetConfig(ip: u32, subnet: u32, gateway: u32, dns: u32)

  /** netstack_configure_ipv4_static: a zero mask stands for /24, a zero name server for the gateway. */
  function Configure(c: NetConfig, linkUp: bool): Option<NetConfig> {
    if c.ip == 0 || c.gateway == 0 || !linkUp then None
    else Some(WithDefaults(c))
  }

  function WithDefaults(c: NetConfig): NetConfig {
    NetConfig(c.ip, if c.subnet == 0 then DEFAULT_SUBNET else c.subnet, c.gateway,
              if c.dns == 0 then c.gateway else c.dns)
  }

  function ReadIp(text: string, key: string): Option<u32> {
    match ReadValue(text, key, 32)
    case None => None
    case Some(v) => ParseIpv4(v)
  }

  function OrElse(ip: Option<u32>, other: u32): u32 {
    match ip case None => other case Some(v) => v
  }

  function LoadText(text: string, linkUp: bool): Option<NetConfig> {
    if ReadValue(text, "mode", 16) != Some("static") then None
    else
      var ip, gateway := ReadIp(text, "ip"), ReadIp(text, "gateway");
      if ip.None? || gateway.None? then None
      else
        Configure(NetConfig(ip.value, OrElse(ReadIp(text, "subnet"), DEFAULT_SUBNET), gateway.value,
                            OrElse(ReadIp(text, "dns"), 0)), linkUp)
  }

  function Line(key: string, value: string): string {
    key + " " + value + "\n"
  }

  function FileText(c: NetConfig): string {
    Line("mode", "static")
    + (Line("ip", FormatIpv4(c.ip))
       + (Line("subnet", FormatIpv4(c.subnet))
          + (Line("gateway", FormatIpv4(c.gateway))
             + Line("dns", FormatIpv4(c.dns)))))
  }

  function SaveText(c: NetConfig): Option<string> {
    if c.ip == 0 || c.gateway == 0 then None else Some(FileText(WithDefaults(c)))
  }

  method ReadIpOf(text: string, key: string) returns (ip: Option<u32>)
    ensures ip == ReadIp(text, key)
  {
    var v := FindValue(text, key, 32);
    if v.None? {
      return None;
    }
    ip := ScanIpv4(v.value);
  }

  /** netstack_configure_static_from_vfs, on the text of the file. */
  method Load(text: string, linkUp: bool) returns (c: Option<NetConfig>)
    ensures c == LoadText(text, linkUp)
  {
    hide ReadIp, ReadValue;
    var mode := FindValue(text, "mode", 16);
    if mode != Some("static") {
      return None;
    }
    var ip := ReadIpOf(text, "ip");
    var gateway := ReadIpOf(text, "gateway");
    if ip.None? || gateway.None? {
      return None;
    }
    var subnet := ReadIpOf(text, "subnet");
    var dns := ReadIpOf(text, "dns");
    c := Configure(NetConfig(ip.value, OrElse(subnet, DEFAULT_SUBNET), gateway.value, OrElse(dns, 0)), linkUp);
  }

  // ----- where a value is found -----

  /** Spaces and tabs. */
  ghost predicate AllBlank(b: string) {
    forall i :: 0 <= i < |b| ==> b[i] == ' ' || b[i] == '\t'
  }

  lemma {:induction false} SkipsBlanks(b: string, rest: string)
    requires AllBlank(b) && rest != [] && rest[0] != ' ' && rest[0] != '\t'
    ensures SkipBlanks(b + rest) == rest
  {
    if b == [] {
      assert b + rest == rest;
    } else {
      assert (b + rest)[1..] == b[1..] + rest;
      SkipsBlanks(b[1..], rest);
    }
  }

  /** After the key, any blanks, and the value up to a blank, the end of the line or the end of the text. */
  lemma FoundToken(key: string, b: string, v: string, rest: string, cap: nat)
    requires b != [] && AllBlank(b) && 0 < |v| && Token(v)
    requires rest == [] || rest[0] == ' ' || rest[0] == '\t' || rest[0] == '\r' || rest[0] == '\n'
    ensures ReadValue(key + (b + (v + rest)), key, cap) == if |v| < cap then Some(v) else None
  {
    var tail := v + rest;
    var text := key + (b + tail);
    assert text[..|key|] == key && text[|key|] == b[0] && text[|key|..] == b + tail;
    assert tail[0] == v[0] && !EndsToken(v[0]);
    SkipsBlanks(b, tail);
    TokenEnds(v, rest);
    assert tail[..|v|] == v;
  }

  lemma {:induction false} TokenEnds(v: string, rest: string)
    requires Token(v) && (rest == [] || EndsToken(rest[0]))
    ensures TokenLen(v + rest) == |v|
  {
    if v == [] {
      assert v + rest == rest;
    } else {
      assert (v + rest)[1..] == v[1..] + rest;
      TokenEnds(v[1..], rest);
    }
  }

  lemma NoMatch(line: string, rest: string, key: string)
    requires !(|key| < |line| && line[..|key|] == key && (line[|key|] == ' ' || line[|key|] == '\t'))
    requires forall i :: 0 <= i < |key| ==> key[i] != '\n'
    ensures !KeyMatches(line + "\n" + rest, key)
  {
    var text := line + "\n" + rest;
    assert text[|line|] == '\n';
    assert forall i :: 0 <= i < |line| ==> text[i] == line[i];
    assert |key| <= |line| ==> text[..|key|] == line[..|key|];
    assert |key| <= |text| ==> forall i :: 0 <= i < |key| ==> text[..|key|][i] == text[i];
  }

  /** A line that does not begin with the key and a blank is passed over. */
  lemma PassedOver(line: string, rest: string, key: string, cap: nat)
    requires forall i :: 0 <= i < |line| ==> line[i] != '\n'
    requires !(|key| < |line| && line[..|key|] == key && (line[|key|] == ' ' || line[|key|] == '\t'))
    requires forall i :: 0 <= i < |key| ==> key[i] != '\n'
    ensures ReadValue(line + "\n" + rest, key, cap) == ReadValue(rest, key, cap)
  {
    NoMatch(line, rest, key);
    hide KeyMatches;
    LineLenOf(line, rest);
    assert (line + "\n" + rest)[|line| + 1..] == rest;
  }

  // ----- what a file says -----

  /** A static configuration takes effect if and only if it has an address and a gateway and the link is
      up; a mask missing or zero is 255.255.255.0, a name server missing or zero is the gateway. */
  lemma LoadIs(text: string, linkUp: bool)
    ensures var ip, mask := ReadIp(text, "ip"), ReadIp(text, "subnet");
      var gateway, dns := ReadIp(text, "gateway"), ReadIp(text, "dns");
      LoadText(text, linkUp)
      == if ReadValue(text, "mode", 16) == Some("static") && linkUp
            && ip.Some? && ip.value != 0 && gateway.Some? && gateway.value != 0
         then Some(NetConfig(ip.value,
                             if mask.None? || mask.value == 0 then Address(255, 255, 255, 0) else mask.value,
                             gateway.value,
                             if dns.None? || dns.value == 0 then gateway.value else dns.value))
         else None
  {
    hide ReadIp, ReadValue;
  }

  lemma AddressParts(a: u8, b: u8, c: u8, d: u8)
    ensures var ip := Address(a, b, c, d);
      Part(ip, 0) == a && Part(ip, 1) == b && Part(ip, 2) == c && Part(ip, 3) == d
  {
    var ip := Address(a, b, c, d);
    assert ip / 0x100 == a as u32 * 0x1_0000 + b as u32 * 0x100 + c as u32;
    assert ip / 0x1_0000 == a as u32 * 0x100 + b as u32;
  }

  /** An address is printed from its most significant byte on. */
  lemma Printed(a: u8, b: u8, c: u8, d: u8)
    ensures FormatIpv4(Address(a, b, c, d))
         == Decimal(a as int) + "." + Decimal(b as int) + "." + Decimal(c as int) + "." + Decimal(d as int)
  {
    AddressParts(a, b, c, d);
    hide Decimal, Part, Address;
  }

  /** The file, line by line. */
  lemma FileIs(c: NetConfig)
    ensures FileText(c)
         == "mode static\n"
            + ("ip " + FormatIpv4(c.ip) + "\n"
               + ("subnet " + FormatIpv4(c.subnet) + "\n"
                  + ("gateway " + FormatIpv4(c.gateway) + "\n"
                     + ("dns " + FormatIpv4(c.dns) + "\n"))))
  {
    assert "mode" + " " + "static" + "\n" == "mode static\n";
    assert "ip" + " " == "ip " && "subnet" + " " == "subnet " && "gateway" + " " == "gateway " && "dns" + " " == "dns ";
    LineIs("ip", FormatIpv4(c.ip));
    LineIs("subnet", FormatIpv4(c.subnet));
    LineIs("gateway", FormatIpv4(c.gateway));
    LineIs("dns", FormatIpv4(c.dns));
    LineIs("mode", "static");
    hide FormatIpv4, Line;
  }

  lemma LineIs(key: string, value: string)
    ensures Line(key, value) == (key + " ") + value + "\n"
  {
  }

  // ----- round trip -----

  /** A key or value: no blanks and no line ends. */
  ghost predicate Token(v: string) {
    forall i :: 0 <= i < |v| ==> !EndsToken(v[i])
  }

  lemma {:induction false} LineLenOf(line: string, rest: string)
    requires forall i :: 0 <= i < |line| ==> line[i] != '\n'
    ensures LineLen(line + "\n" + rest) == |line|
  {
    if line == [] {
      assert (line + "\n" + rest)[0] == '\n';
    } else {
      assert (line + "\n" + rest)[1..] == line[1..] + "\n" + rest;
      LineLenOf(line[1..], rest);
    }
  }

  lemma {:induction false} TokenLenOf(v: string, rest: string)
    requires Token(v) && rest != [] && EndsToken(rest[0])
    ensures TokenLen(v + rest) == |v|
  {
    if v == [] {
      assert v + rest == rest;
    } else {
      assert (v + rest)[1..] == v[1..] + rest;
      TokenLenOf(v[1..], rest);
    }
  }

  /** A line with another key is skipped. */
  lemma SkipLine(key: string, other: string, value: string, rest: string, cap: nat)
    requires Token(other) && Token(value) && Token(key) && key != other
    ensures ReadValue(Line(other, value) + rest, key, cap) == ReadValue(rest, key, cap)
  {
    var text := Line(other, value) + rest;
    var line := other + " " + value;
    assert text == line + "\n" + rest;
    LineLenOf(line, rest);
    assert text[|line| + 1..] == rest;
    if KeyMatches(text, key) {
      KeyUnique(text, key, other);
    }
  }

  /** The key is what stands before the first blank. */
  lemma KeyUnique(text: string, key: string, other: string)
    requires Token(key) && Token(other)
    requires |other| < |text| && text[..|other|] == other && text[|other|] == ' ' && KeyMatches(text, key)
    ensures key == other
  {
  }

  lemma FoundLine(key: string, value: string, rest: string, cap: nat)
    requires Token(key) && Token(value) && 0 < |value| < cap
    ensures ReadValue(Line(key, value) + rest, key, cap) == Some(value)
  {
    var text := Line(key, value) + rest;
    var tail := value + ("\n" + rest);
    assert text == key + (" " + tail);
    assert text[..|key|] == key && text[|key|] == ' ' && text[|key|..] == " " + tail;
    assert (" " + tail)[1..] == tail && tail[0] == value[0];
    assert SkipBlanks(tail) == tail && SkipBlanks(" " + tail) == tail;
    assert KeyMatches(text, key);
    TokenLenOf(value, "\n" + rest);
    assert tail[..|value|] == value;
  }

  lemma {:induction false} DecimalLen(n: u8)
    ensures |Decimal(n as int)| <= 3
  {
    assert n < 10 || n / 10 < 10 || n / 100 < 10;
    assert Decimal(n as int / 10) == Decimal((n / 10) as int);
    assert n as int / 10 / 10 < 10;
  }

  /** A printed address fits its 24-byte buffer with room to spare. */
  lemma FormatIsToken(ip: u32)
    ensures Token(FormatIpv4(ip)) && 0 < |FormatIpv4(ip)| <= 15
  {
    FormatPlain(ip);
    hide Decimal, Part;
    DecimalLen(Part(ip, 0));
    DecimalLen(Part(ip, 1));
    DecimalLen(Part(ip, 2));
    DecimalLen(Part(ip, 3));
  }

  lemma ReadsBack(key: string, ip: u32, rest: string)
    requires Token(key)
    ensures ReadIp(Line(key, FormatIpv4(ip)) + rest, key) == Some(ip)
  {
    hide FormatIpv4, ParseIpv4, Line, ReadValue, Token;
    FormatIsToken(ip);
    FoundLine(key, FormatIpv4(ip), rest, 32);
    ParseFormat(ip);
  }

  /** Every line of the file is found under its key. */
  lemma FileValues(c: NetConfig)
    ensures var text := FileText(c);
      && ReadValue(text, "mode", 16) == Some("static")
      && ReadIp(text, "ip") == Some(c.ip) && ReadIp(text, "subnet") == Some(c.subnet)
      && ReadIp(text, "gateway") == Some(c.gateway) && ReadIp(text, "dns") == Some(c.dns)
  {
    var i, s, g, d := FormatIpv4(c.ip), FormatIpv4(c.subnet), FormatIpv4(c.gateway), FormatIpv4(c.dns);
    Keys();
    FormatIsToken(c.ip);
    FormatIsToken(c.subnet);
    FormatIsToken(c.gateway);
    hide FormatIpv4, ParseIpv4, Line, ReadValue, Token;
    var t5 := Line("dns", d);
    var t4 := Line("gateway", g) + t5;
    var t3 := Line("subnet", s) + t4;
    var t2 := Line("ip", i) + t3;
    FoundLine("mode", "static", t2, 16);
    SkipLine("ip", "mode", "static", t2, 32);
    ReadsBack("ip", c.ip, t3);
    SkipLine("subnet", "mode", "static", t2, 32);
    SkipLine("subnet", "ip", i, t3, 32);
    ReadsBack("subnet", c.subnet, t4);
    SkipLine("gateway", "mode", "static", t2, 32);
    SkipLine("gateway", "ip", i, t3, 32);
    SkipLine("gateway", "subnet", s, t4, 32);
    ReadsBack("gateway", c.gateway, t5);
    SkipLine("dns", "mode", "static", t2, 32);
    SkipLine("dns", "ip", i, t3, 32);
    SkipLine("dns", "subnet", s, t4, 32);
    SkipLine("dns", "gateway", g, t5, 32);
    ReadsBack("dns", c.dns, "");
    assert t5 + "" == t5;
  }

  lemma Keys()
    ensures Token("mode") && Token("static") && Token("ip") && Token("subnet") && Token("gateway") && Token("dns")
  {
  }

  /** Saving and loading gives back the addresses with the defaults filled in; a configuration
      without address or gateway is not saved.  The text fits its 256-byte buffer. */
  lemma SaveLoad(c: NetConfig)
    ensures SaveText(c).Some? <==> c.ip != 0 && c.gateway != 0
    ensures SaveText(c).Some? ==> |SaveText(c).value| < 256
    ensures SaveText(c).Some? ==>
      && LoadText(SaveText(c).value, true) == Configure(c, true)
      && Configure(c, true) == Some(NetConfig(c.ip, if c.subnet == 0 then Address(255, 255, 255, 0) else c.subnet,
                                              c.gateway, if c.dns == 0 then c.gateway else c.dns))
  {
    var d := WithDefaults(c);
    FormatIsToken(d.ip);
    FormatIsToken(d.subnet);
    FormatIsToken(d.gateway);
    FormatIsToken(d.dns);
    FileValues(d);
    hide FormatIpv4, ReadIp, ReadValue, Token;
    assert |FileText(d)| < 256;
    hide FileText;
  }
}
