/**
 The static network configuration of kernel/drivers/netstack.c: addresses printed in decimal,
 saved as a text of "key value" lines, looked up and parsed back.  A text is a C string without
 its terminator.
 */
module StaticConfig {
  import opened Machine

  const DEFAULT_SUBNET: u32 := 0xffff_ff00

  // ----- addresses -----

  function Digit(d: nat): (c: char)
    requires d < 10
  {
    ('0' as int + d) as char
  }

  function Decimal(n: nat): (s: string)
    ensures s != []
  {
    if n < 10 then [Digit(n)] else Decimal(n / 10) + [Digit(n % 10)]
  }

  function Part(ip: u32, i: nat): u8
    requires i < 4
  {
    if i == 0 then (ip / 0x100_0000) as u8
    else if i == 1 then (ip / 0x1_0000 % 256) as u8
    else if i == 2 then (ip / 0x100 % 256) as u8
    else (ip % 256) as u8
  }

  function FormatIpv4(ip: u32): string {
    Decimal(Part(ip, 0) as int) + "." + Decimal(Part(ip, 1) as int) + "."
    + Decimal(Part(ip, 2) as int) + "." + Decimal(Part(ip, 3) as int)
  }

  /** Where the parser stands inside a dotted quad: the parts finished, the value of the current
      one and how many digits it has. */
  datatype Scan = Bad | Scan(parts: seq<u8>, current: u8, digits: nat)

  predicate IsDigit(c: char) {
    '0' <= c <= '9'
  }

  function Step(s: Scan, c: char): Scan {
    if s.Bad? then Bad
    else if IsDigit(c) then
      var v := s.current as int * 10 + (c as int - '0' as int);
      if v > 255 then Bad else Scan(s.parts, v as u8, s.digits + 1)
    else if c == '.' then
      if s.digits == 0 || |s.parts| >= 3 then Bad else Scan(s.parts + [s.current], 0, 0)
    else Bad
  }

  function Run(s: Scan, text: string): Scan
    decreases |text|
  {
    if text == [] then s else Run(Step(s, text[0]), text[1..])
  }

  function SkipSpaces(text: string): (rest: string)
    ensures |rest| <= |text|
  {
    if text != [] && text[0] == ' ' then SkipSpaces(text[1..]) else text
  }

  /** Length of the text up to its first space. */
  function WordLen(text: string): (n: nat)
    ensures n <= |text|
  {
    if text == [] || text[0] == ' ' then 0 else 1 + WordLen(text[1..])
  }

  function Address(a: u8, b: u8, c: u8, d: u8): u32 {
    a as u32 * 0x100_0000 + b as u32 * 0x1_0000 + c as u32 * 0x100 + d as u32
  }

  function Finish(s: Scan, rest: string): (ip: Option<u32>) {
    if s.Bad? || |s.parts| != 3 || s.digits == 0 || SkipSpaces(rest) != [] then None
    else Some(Address(s.parts[0], s.parts[1], s.parts[2], s.current))
  }

  function ParseIpv4(text: string): (ip: Option<u32>) {
    var word := SkipSpaces(text);
    var n := WordLen(word);
    Finish(Run(Scan([], 0, 0), word[..n]), word[n..])
  }

  // ----- parsing what was printed -----

  lemma {:induction false} RunConcat(s: Scan, a: string, b: string)
    ensures Run(s, a + b) == Run(Run(s, a), b)
    decreases |a|
  {
    if a == [] {
      assert a + b == b;
    } else {
      assert (a + b)[1..] == a[1..] + b;
      RunConcat(Step(s, a[0]), a[1..], b);
    }
  }

  lemma {:induction false} RunDecimal(parts: seq<u8>, n: u8)
    ensures Run(Scan(parts, 0, 0), Decimal(n as int)) == Scan(parts, n, |Decimal(n as int)|)
    decreases n
  {
    if n < 10 {
      assert Decimal(n as int)[1..] == [];
    } else {
      var m := n / 10;
      RunDecimal(parts, m);
      assert Decimal(n as int) == Decimal(m as int) + [Digit(n as int % 10)];
      RunConcat(Scan(parts, 0, 0), Decimal(m as int), [Digit(n as int % 10)]);
      RunOne(Scan(parts, m, |Decimal(m as int)|), Digit(n as int % 10));
    }
  }

  lemma RunOne(s: Scan, c: char)
    ensures Run(s, [c]) == Step(s, c)
  {
    assert [c][1..] == [];
  }

  /** A finished part and its dot. */
  lemma RunPart(parts: seq<u8>, n: u8, rest: string)
    requires |parts| < 3
    ensures Run(Scan(parts, 0, 0), Decimal(n as int) + "." + rest) == Run(Scan(parts + [n], 0, 0), rest)
  {
    hide Decimal;
    var text := Decimal(n as int);
    RunConcat(Scan(parts, 0, 0), text + ".", rest);
    RunConcat(Scan(parts, 0, 0), text, ".");
    RunDecimal(parts, n);
    RunOne(Scan(parts, n, |text|), '.');
  }

  lemma RunFormat(ip: u32)
    ensures Run(Scan([], 0, 0), FormatIpv4(ip))
         == Scan([Part(ip, 0), Part(ip, 1), Part(ip, 2)], Part(ip, 3), |Decimal(Part(ip, 3) as int)|)
  {
    hide Decimal, Part, Run;
    var a, b, c, d := Part(ip, 0), Part(ip, 1), Part(ip, 2), Part(ip, 3);
    var r3 := Decimal(d as int);
    var r2 := Decimal(c as int) + "." + r3;
    var r1 := Decimal(b as int) + "." + r2;
    assert FormatIpv4(ip) == Decimal(a as int) + "." + r1;
    RunPart([], a, r1);
    RunPart([a], b, r2);
    RunPart([a, b], c, r3);
    RunDecimal([a, b, c], d);
    assert [] + [a] == [a] && [a] + [b] == [a, b] && [a, b] + [c] == [a, b, c];
  }

  lemma PartsOf(ip: u32)
    ensures Address(Part(ip, 0), Part(ip, 1), Part(ip, 2), Part(ip, 3)) == ip
  {
    assert ip / 0x100 == ip / 0x1_0000 * 256 + ip / 0x100 % 256;
    assert ip / 0x1_0000 == ip / 0x100_0000 * 256 + ip / 0x1_0000 % 256;
  }

  /** Printable without separators: what a value in the file may contain. */
  predicate Plain(text: string) {
    forall i :: 0 <= i < |text| ==> IsDigit(text[i]) || text[i] == '.'
  }

  lemma {:induction false} DecimalPlain(n: nat)
    ensures Plain(Decimal(n))
  {
    if n >= 10 {
      DecimalPlain(n / 10);
    }
  }

  lemma FormatPlain(ip: u32)
    ensures Plain(FormatIpv4(ip)) && FormatIpv4(ip) != []
  {
    hide Decimal, Part;
    DecimalPlain(Part(ip, 0) as int);
    DecimalPlain(Part(ip, 1) as int);
    DecimalPlain(Part(ip, 2) as int);
    DecimalPlain(Part(ip, 3) as int);
  }

  lemma {:induction false} PlainWord(text: string)
    requires Plain(text)
    ensures WordLen(text) == |text| && SkipSpaces(text) == text
  {
    if text != [] {
      assert text[0] != ' ';
      PlainWord(text[1..]);
    }
  }

  lemma ParseFormat(ip: u32)
    ensures ParseIpv4(FormatIpv4(ip)) == Some(ip)
  {
    var text := FormatIpv4(ip);
    FormatPlain(ip);
    PlainWord(text);
    RunFormat(ip);
    PartsOf(ip);
    hide Part, Decimal, FormatIpv4, Run, Address;
    assert text[..|text|] == text && text[|text|..] == [];
  }

  /** Skips spaces from position `i` on. */
  method SpacesFrom(text: string, i: nat) returns (j: nat)
    requires i <= |text|
    ensures i <= j <= |text| && text[j..] == SkipSpaces(text[i..])
  {
    j := i;
    while j < |text| && text[j] == ' '
      invariant i <= j <= |text| && SkipSpaces(text[j..]) == SkipSpaces(text[i..])
    {
      assert text[j..][1..] == text[j + 1..];
      j := j + 1;
    }
  }

  /** One character of the quad; not `ok` where the parser gives up. */
  method Take(parts: array<u32>, part: nat, digits: nat, c: char, ghost s: Scan)
    returns (ok: bool, part': nat, digits': nat)
    requires Holds(parts, part, digits, s)
    modifies parts
    ensures ok <==> !Step(s, c).Bad?
    ensures ok ==> Holds(parts, part', digits', Step(s, c))
  {
    part', digits' := part, digits;
    if '0' <= c <= '9' {
      parts[part] := parts[part] * 10 + (c as int - '0' as int) as u32;
      if parts[part] > 255 {
        return false, part', digits';
      }
      digits' := digits + 1;
    } else if c == '.' {
      if digits == 0 || part >= 3 {
        return false, part', digits';
      }
      part' := part + 1;
      digits' := 0;
    } else {
      return false, part', digits';
    }
    ok := true;
  }

  /** The characters up to the next space. */
  method TakeWord(text: string, i: nat, parts: array<u32>) returns (ok: bool, j: nat, part: nat, digits: nat)
    requires i <= |text| && Holds(parts, 0, 0, Scan([], 0, 0))
    modifies parts
    ensures var s := Run(Scan([], 0, 0), text[i..][..WordLen(text[i..])]);
      && (ok <==> !s.Bad?)
      && (ok ==> j == i + WordLen(text[i..]) && Holds(parts, part, digits, s))
  {
    ghost var word := text[i..];
    ghost var n := WordLen(word);
    part, digits, j := 0, 0, i;
    assert word[..0] == [] && text[j..] == word;
    hide Holds, Step, Run;
    RunNothing(Scan([], 0, 0));
    while j < |text| && text[j] != ' '
      invariant i <= j <= |text| && WordLen(text[j..]) + j - i == n
      invariant Holds(parts, part, digits, Run(Scan([], 0, 0), word[..j - i]))
    {
      assert text[j..][1..] == text[j + 1..];
      ExtendRun(word, j - i);
      RunBad(word, j + 1 - i, n);
      ok, part, digits := Take(parts, part, digits, text[j], Run(Scan([], 0, 0), word[..j - i]));
      if !ok {
        return;
      }
      j := j + 1;
    }
    HoldsScan(parts, part, digits, Run(Scan([], 0, 0), word[..n]));
    ok := true;
  }

  lemma RunNothing(s: Scan)
    ensures Run(s, []) == s
  {
  }

  lemma HoldsScan(parts: array<u32>, part: nat, digits: nat, s: Scan)
    requires Holds(parts, part, digits, s)
    ensures !s.Bad?
  {
  }

  /** The checks and the address after the loops. */
  method Conclude(parts: array<u32>, part: nat, digits: nat, left: nat, ghost s: Scan, ghost rest: string)
    returns (ip: Option<u32>)
    requires Holds(parts, part, digits, s) && left == |SkipSpaces(rest)|
    ensures ip == Finish(s, rest)
  {
    if left > 0 || part != 3 || digits == 0 {
      return None;
    }
    return Some(parts[0] * 0x100_0000 + parts[1] * 0x1_0000 + parts[2] * 0x100 + parts[3]);
  }

  /** The whole parser, with the parts in an array. */
  method ScanIpv4(text: string) returns (ip: Option<u32>)
    ensures ip == ParseIpv4(text)
  {
    var parts := new u32[4](i => 0);
    assert Holds(parts, 0, 0, Scan([], 0, 0));
    hide Run, Holds, Finish, SkipSpaces, WordLen;
    var i := SpacesFrom(text, 0);
    assert text[0..] == text;
    var ok, j, part, digits := TakeWord(text, i, parts);
    if !ok {
      BadFinish(text[i..][WordLen(text[i..])..]);
      return None;
    }
    var k := SpacesFrom(text, j);
    assert text[i..][j - i..] == text[j..];
    ip := Conclude(parts, part, digits, |text| - k, Run(Scan([], 0, 0), text[i..][..j - i]), text[j..]);
  }

  lemma BadFinish(rest: string)
    ensures Finish(Bad, rest) == None
  {
  }

  /** The array and counters hold the automaton's state. */
  ghost predicate Holds(parts: array<u32>, part: nat, digits: nat, s: Scan)
    reads parts
  {
    && parts.Length == 4 && part <= 3 && s.Scan? && |s.parts| == part && digits == s.digits
    && (forall k :: 0 <= k < part ==> parts[k] as int == s.parts[k] as int)
    && parts[part] as int == s.current as int
    && (forall k :: part < k < 4 ==> parts[k] == 0)
  }

  lemma ExtendRun(word: string, i: nat)
    requires i < |word|
    ensures Run(Scan([], 0, 0), word[..i + 1]) == Step(Run(Scan([], 0, 0), word[..i]), word[i])
  {
    assert word[..i + 1] == word[..i] + [word[i]];
    RunConcat(Scan([], 0, 0), word[..i], [word[i]]);
    RunOne(Run(Scan([], 0, 0), word[..i]), word[i]);
  }

  /** Once bad, always bad. */
  lemma RunBad(word: string, i: nat, n: nat)
    requires i <= n <= |word|
    ensures Run(Scan([], 0, 0), word[..i]).Bad? ==> Run(Scan([], 0, 0), word[..n]).Bad?
    decreases n - i
  {
    if i < n {
      ExtendRun(word, i);
      RunBad(word, i + 1, n);
    }
  }
}
