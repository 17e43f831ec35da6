/** Which texts netstack_parse_ipv4 in kernel/drivers/netstack.c accepts, said without the parser. */
module Ipv4Text {
  import opened Machine
  import opened Endian
  import opened StaticConfig

  predicate AllDigits(d: string) {
    forall i :: 0 <= i < |d| ==> IsDigit(d[i])
  }

  predicate AllSpaces(t: string) {
    forall i :: 0 <= i < |t| ==> t[i] == ' '
  }

  /** The number a string of decimal digits writes; leading zeros are allowed. */
  function Value(d: string): nat
    requires AllDigits(d)
  {
    if d == [] then 0 else Value(d[..|d| - 1]) * 10 + (d[|d| - 1] as int - '0' as int)
  }

  /** One part of a dotted quad. */
  predicate IsPart(d: string) {
    d != [] && AllDigits(d) && Value(d) <= 255
  }

  function PartValue(d: string): u8
    requires IsPart(d)
  {
    Value(d) as u8
  }

  /** A text cut into spaces, the four parts between the dots, and spaces. */
  datatype Cut = Cut(before: string, a: string, b: string, c: string, d: string, after: string)

  predicate QuadOf(text: string, ip: u32, q: Cut) {
    && AllSpaces(q.before) && AllSpaces(q.after)
    && IsPart(q.a) && IsPart(q.b) && IsPart(q.c) && IsPart(q.d)
    && text == q.before + (q.a + "." + (q.b + "." + (q.c + "." + q.d)) + q.after)
    && ip == Address(PartValue(q.a), PartValue(q.b), PartValue(q.c), PartValue(q.d))
  }

  /** Four decimal numbers up to 255 with dots between them and spaces around them. */
  ghost predicate IsQuad(text: string, ip: u32) {
    exists q :: QuadOf(text, ip, q)
  }

  // ----- every quad is accepted -----

  lemma {:induction false} RunDigits(parts: seq<u8>, d: string)
    requires AllDigits(d)
    ensures Run(Scan(parts, 0, 0), d) == if Value(d) <= 255 then Scan(parts, Value(d) as u8, |d|) else Bad
    decreases |d|
  {
    if d != [] {
      var n := |d| - 1;
      RunDigits(parts, d[..n]);
      assert d == d[..n] + [d[n]];
      RunConcat(Scan(parts, 0, 0), d[..n], [d[n]]);
      RunOne(Run(Scan(parts, 0, 0), d[..n]), d[n]);
    }
  }

  lemma RunDotted(parts: seq<u8>, d: string, rest: string)
    requires IsPart(d) && |parts| < 3
    ensures Run(Scan(parts, 0, 0), d + "." + rest) == Run(Scan(parts + [PartValue(d)], 0, 0), rest)
  {
    hide Value;
    RunConcat(Scan(parts, 0, 0), d + ".", rest);
    RunConcat(Scan(parts, 0, 0), d, ".");
    RunDigits(parts, d);
    RunOne(Scan(parts, PartValue(d), |d|), '.');
  }

  lemma RunLast(parts: seq<u8>, d: string)
    requires IsPart(d)
    ensures Run(Scan(parts, 0, 0), d) == Scan(parts, PartValue(d), |d|)
  {
    RunDigits(parts, d);
  }

  lemma RunTwo(parts: seq<u8>, c: string, d: string)
    requires |parts| == 2 && IsPart(c) && IsPart(d)
    ensures Run(Scan(parts, 0, 0), c + "." + d) == Scan(parts + [PartValue(c)], PartValue(d), |d|)
  {
    hide *;
    RunDotted(parts, c, d);
    RunLast(parts + [PartValue(c)], d);
  }

  lemma RunThree(parts: seq<u8>, b: string, c: string, d: string)
    requires |parts| == 1 && IsPart(b) && IsPart(c) && IsPart(d)
    ensures Run(Scan(parts, 0, 0), b + "." + (c + "." + d))
         == Scan(parts + [PartValue(b)] + [PartValue(c)], PartValue(d), |d|)
  {
    hide *;
    RunDotted(parts, b, c + "." + d);
    RunTwo(parts + [PartValue(b)], c, d);
  }

  lemma RunQuad(a: string, b: string, c: string, d: string)
    requires IsPart(a) && IsPart(b) && IsPart(c) && IsPart(d)
    ensures Run(Scan([], 0, 0), a + "." + (b + "." + (c + "." + d)))
         == Scan([PartValue(a), PartValue(b), PartValue(c)], PartValue(d), |d|)
  {
    hide *;
    var none: seq<u8> := [];
    RunDotted(none, a, b + "." + (c + "." + d));
    RunThree(none + [PartValue(a)], b, c, d);
    ThreeBytes(none, PartValue(a), PartValue(b), PartValue(c));
  }

  lemma ThreeBytes(none: seq<u8>, x: u8, y: u8, z: u8)
    requires none == []
    ensures none + [x] + [y] + [z] == [x, y, z]
  {
  }

  lemma {:induction false} SkipsSpaces(before: string, rest: string)
    requires AllSpaces(before) && (rest == [] || rest[0] != ' ')
    ensures SkipSpaces(before + rest) == rest
  {
    if before == [] {
      assert before + rest == rest;
    } else {
      assert (before + rest)[1..] == before[1..] + rest;
      SkipsSpaces(before[1..], rest);
    }
  }

  lemma {:induction false} WordEnds(w: string, after: string)
    requires (forall i :: 0 <= i < |w| ==> w[i] != ' ') && AllSpaces(after)
    ensures WordLen(w + after) == |w|
  {
    if w == [] {
      assert w + after == after;
    } else {
      assert (w + after)[1..] == w[1..] + after;
      WordEnds(w[1..], after);
    }
  }

  lemma QuadAccepted(text: string, ip: u32, q: Cut)
    requires QuadOf(text, ip, q)
    ensures ParseIpv4(text) == Some(ip)
  {
    var Cut(before, a, b, c, d, after) := q;
    var w := a + "." + (b + "." + (c + "." + d));
    assert w[0] == a[0];
    assert forall i :: 0 <= i < |w| ==> w[i] != ' ';
    SkipsSpaces(before, w + after);
    WordEnds(w, after);
    RunQuad(a, b, c, d);
    SkipsSpaces(after, []);
    assert after + [] == after;
    hide Value, Run, SkipSpaces, WordLen, AllDigits;
    assert (w + after)[..|w|] == w && (w + after)[|w|..] == after;
  }

  // ----- nothing else is -----

  /** The finished parts, each with its dot. */
  function Joined(pieces: seq<string>): string {
    if pieces == [] then [] else Joined(pieces[..|pieces| - 1]) + pieces[|pieces| - 1] + "."
  }

  /** `w` is the finished `pieces` and the digits `last`, and `s` is where that leaves the parser. */
  ghost predicate Spells(w: string, s: Scan, pieces: seq<string>, last: string) {
    && s.Scan? && |pieces| == |s.parts|
    && (forall k :: 0 <= k < |pieces| ==> IsPart(pieces[k]) && Value(pieces[k]) == s.parts[k] as int)
    && AllDigits(last) && Value(last) == s.current as int && |last| == s.digits
    && w == Joined(pieces) + last
  }

  lemma SpellDigit(w: string, s: Scan, pieces: seq<string>, last: string, c: char)
    requires Spells(w, s, pieces, last) && IsDigit(c) && !Step(s, c).Bad?
    ensures Spells(w + [c], Step(s, c), pieces, last + [c])
  {
    hide Joined, IsPart;
    assert (last + [c])[..|last|] == last;
    assert Joined(pieces) + last + [c] == Joined(pieces) + (last + [c]);
  }

  lemma SpellDot(w: string, s: Scan, pieces: seq<string>, last: string)
    requires Spells(w, s, pieces, last) && !Step(s, '.').Bad?
    ensures Spells(w + ".", Step(s, '.'), pieces + [last], [])
  {
    assert (pieces + [last])[..|pieces|] == pieces;
    assert Joined(pieces) + last + "." == Joined(pieces + [last]);
    assert Joined(pieces + [last]) + [] == Joined(pieces + [last]);
  }

  /** Whatever leaves the parser in a good state is finished parts and digits. */
  lemma {:induction false} Decompose(w: string) returns (pieces: seq<string>, last: string)
    requires !Run(Scan([], 0, 0), w).Bad?
    ensures Spells(w, Run(Scan([], 0, 0), w), pieces, last)
  {
    if w == [] {
      pieces, last := [], [];
    } else {
      var n := |w| - 1;
      var s := Run(Scan([], 0, 0), w[..n]);
      assert w[..n + 1] == w && w[..n] + [w[n]] == w;
      ExtendRun(w, n);
      pieces, last := Decompose(w[..n]);
      hide Spells, Run;
      if IsDigit(w[n]) {
        SpellDigit(w[..n], s, pieces, last, w[n]);
        last := last + [w[n]];
      } else {
        assert w[n] == '.';
        SpellDot(w[..n], s, pieces, last);
        pieces, last := pieces + [last], [];
      }
    }
  }

  lemma {:induction false} SpacesBefore(text: string) returns (before: string)
    ensures AllSpaces(before) && text == before + SkipSpaces(text)
  {
    if text != [] && text[0] == ' ' {
      before := SpacesBefore(text[1..]);
      before := " " + before;
    } else {
      before := [];
    }
  }

  lemma JoinedThree(pieces: seq<string>)
    requires |pieces| == 3
    ensures Joined(pieces) == pieces[0] + "." + pieces[1] + "." + pieces[2] + "."
  {
    assert pieces[..2][..1] == pieces[..1] && pieces[..1][..0] == [];
    assert Joined(pieces[..1]) == pieces[0] + ".";
    assert Joined(pieces[..2]) == pieces[0] + "." + pieces[1] + ".";
  }

  lemma Regroup(a: string, b: string, c: string, d: string)
    ensures a + "." + b + "." + c + "." + d == a + "." + (b + "." + (c + "." + d))
  {
  }

  /** A word that leaves the parser with three parts and some digits is a quad. */
  lemma WordIsQuad(w: string, s: Scan) returns (q: Cut)
    requires s == Run(Scan([], 0, 0), w) && s.Scan? && |s.parts| == 3 && s.digits > 0
    ensures IsPart(q.a) && IsPart(q.b) && IsPart(q.c) && IsPart(q.d)
    ensures w == q.a + "." + (q.b + "." + (q.c + "." + q.d))
    ensures Value(q.a) == s.parts[0] as int && Value(q.b) == s.parts[1] as int
    ensures Value(q.c) == s.parts[2] as int && Value(q.d) == s.current as int
  {
    var pieces, last := Decompose(w);
    hide Run, Joined, Value, AllDigits;
    q := Cut([], pieces[0], pieces[1], pieces[2], last, []);
    JoinedThree(pieces);
    Regroup(q.a, q.b, q.c, q.d);
  }

  lemma AcceptedIsQuad(text: string, ip: u32)
    requires ParseIpv4(text) == Some(ip)
    ensures IsQuad(text, ip)
  {
    var word := SkipSpaces(text);
    var n := WordLen(word);
    var w, after := word[..n], word[n..];
    hide Run, SkipSpaces, WordLen, Value, AllDigits, IsPart;
    var before := SpacesBefore(text);
    var after' := SpacesBefore(after);
    assert after' + [] == after';
    var q := WordIsQuad(w, Run(Scan([], 0, 0), w));
    assert w + after == word;
    assert QuadOf(text, ip, q.(before := before, after := after));
  }

  /** The parser accepts exactly the dotted quads, and returns their address. */
  lemma ParseExact(text: string, ip: u32)
    ensures ParseIpv4(text) == Some(ip) <==> IsQuad(text, ip)
  {
    hide ParseIpv4, QuadOf;
    if ParseIpv4(text) == Some(ip) {
      AcceptedIsQuad(text, ip);
    }
    if IsQuad(text, ip) {
      var q :| QuadOf(text, ip, q);
      QuadAccepted(text, ip, q);
    }
  }

  /** The address is the four parts as bytes, most significant first. */
  lemma AddressIs(a: u8, b: u8, c: u8, d: u8)
    ensures Address(a, b, c, d) as int == BigEndian([a, b, c, d])
  {
    OneMore([], a);
    OneMore([a], b);
    OneMore([a, b], c);
    OneMore([a, b, c], d);
    assert [] + [a] == [a] && [a] + [b] == [a, b] && [a, b] + [c] == [a, b, c] && [a, b, c] + [d] == [a, b, c, d];
    assert BigEndian([]) == 0;
    hide BigEndian;
  }

  lemma OneMore(s: Bytes, b: u8)
    ensures BigEndian(s + [b]) == 256 * BigEndian(s) + b as int
  {
    assert (s + [b])[..|s|] == s;
  }

  /** Printed decimals denote the number and have no leading zero. */
  lemma {:induction false} DecimalIs(n: nat)
    ensures AllDigits(Decimal(n)) && Value(Decimal(n)) == n
    ensures Decimal(n)[0] == '0' <==> n == 0
    ensures n == 0 ==> Decimal(n) == "0"
  {
    if n < 10 {
      assert Decimal(n)[..0] == [];
    } else {
      DecimalIs(n / 10);
      var d := Decimal(n);
      assert d[..|d| - 1] == Decimal(n / 10);
    }
  }
}
