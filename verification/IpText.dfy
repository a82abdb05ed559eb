/** utils/net.go: telling IPv4 texts from IPv6 texts and from host names. */
module IpText {
  import opened Text
  import opened Cidr

  datatype AddressClass = IPv4 | IPv6 | Neither

  /** One of four segments: a number up to 255 without leading zero. Negative numbers pass. */
  predicate Octet(seg: string) {
    !(|seg| > 1 && seg[0] == '0') && Atoi(seg).Some? && Atoi(seg).value <= 255
  }

  predicate IsHex(c: char) { IsDigit(c) || 'a' <= c <= 'f' || 'A' <= c <= 'F' }

  /** One of eight segments: what `strconv.ParseUint(s, 16, 64)` reads, up to four digits. */
  predicate Group(seg: string) { 0 < |seg| <= 4 && forall i :: 0 <= i < |seg| ==> IsHex(seg[i]) }

  predicate QuadOfOctets(text: string) {
    var sp := Split(text, '.');
    |sp| == 4 && forall i :: 0 <= i < 4 ==> Octet(sp[i])
  }

  predicate IsIPv6(text: string) {
    var sp := Split(text, ':');
    |Split(text, '.')| != 4 && |sp| == 8 && forall i :: 0 <= i < 8 ==> Group(sp[i])
  }

  /** The loop over four segments. */
  method AllOctets(sp: seq<string>) returns (ok: bool)
    ensures ok <==> forall i :: 0 <= i < |sp| ==> Octet(sp[i])
  {
    for i := 0 to |sp|
      invariant forall j :: 0 <= j < i ==> Octet(sp[j])
    {
      if |sp[i]| > 1 && sp[i][0] == '0' {
        return false;
      }
      var v := Atoi(sp[i]);
      if v.None? || v.value > 255 {
        return false;
      }
    }
    return true;
  }

  /** The loop over eight segments. */
  method AllGroups(sp: seq<string>) returns (ok: bool)
    ensures ok <==> forall i :: 0 <= i < |sp| ==> Group(sp[i])
  {
    for i := 0 to |sp|
      invariant forall j :: 0 <= j < i ==> Group(sp[j])
    {
      if |sp[i]| > 4 || !Group(sp[i]) {
        return false;
      }
    }
    return true;
  }

  /** ValidIPAddress. */
  method ValidIPAddress(queryIP: string) returns (r: AddressClass)
    ensures r.IPv4? <==> QuadOfOctets(queryIP)
    ensures r.IPv6? <==> IsIPv6(queryIP)
  {
    hide Split, Octet, Group;
    var sp := Split(queryIP, '.');
    if |sp| == 4 {
      var ok := AllOctets(sp);
      return if ok then IPv4 else Neither;
    }
    sp := Split(queryIP, ':');
    if |sp| == 8 {
      var ok := AllGroups(sp);
      return if ok then IPv6 else Neither;
    }
    return Neither;
  }

  predicate Unsigned(text: string) { '-' !in text && '+' !in text }

  lemma {:induction false} LeadingDigitCounts(s: string)
    requires AllDigits(s) && s != "" && s[0] != '0'
    ensures DigitsValue(s) > 0
  {
    if |s| > 1 {
      LeadingDigitCounts(s[..|s| - 1]);
    }
  }

  /** A number has one text without leading zeros. */
  lemma {:induction false} DigitsPrintBack(s: string)
    requires AllDigits(s) && s != "" && (|s| == 1 || s[0] != '0')
    ensures Itoa(DigitsValue(s)) == s
  {
    var init, last := s[..|s| - 1], s[|s| - 1];
    assert s == init + [last];
    var d := last as int - '0' as int;
    assert IsDigit(last) && 0 <= d < 10;
    if |s| > 1 {
      DigitsPrintBack(init);
      LeadingDigitCounts(init);
      Decimal(DigitsValue(init), d);
    } else {
      assert DigitsValue(init) == 0;
      assert DigitsValue(s) == d;
    }
  }

  lemma Decimal(high: nat, d: nat)
    requires d < 10
    ensures (10 * high + d) / 10 == high && (10 * high + d) % 10 == d
  {
  }

  lemma OctetPrints(seg: string)
    requires Octet(seg) && Unsigned(seg)
    ensures 0 <= Atoi(seg).value < 256 && seg == Itoa(Atoi(seg).value)
  {
    assert seg != "" ==> seg[0] in seg;
    DigitsPrintBack(seg);
  }

  lemma PrintedIsOctet(n: nat)
    requires n < 256
    ensures Octet(Itoa(n)) && Unsigned(Itoa(n))
  {
    AtoiOfItoa(n);
    NoLeadingZero(n);
    assert forall c :: c in Itoa(n) ==> IsDigit(c);
  }

  lemma {:induction false} NoLeadingZero(n: nat)
    ensures |Itoa(n)| == 1 || Itoa(n)[0] != '0'
    ensures n > 0 ==> Itoa(n)[0] != '0'
  {
    if n >= 10 {
      NoLeadingZero(n / 10);
    }
  }

  /** Splitting makes no characters. */
  lemma {:induction false} PiecesInside(s: string, sep: char)
    ensures forall piece, c :: piece in Split(s, sep) && c in piece ==> c in s
  {
    if s != "" {
      PiecesInside(s[1..], sep);
      assert s == [s[0]] + s[1..];
    }
  }

  lemma JoinFour(sp: seq<string>)
    requires |sp| == 4
    ensures Join(sp, '.') == sp[0] + ['.'] + (sp[1] + ['.'] + (sp[2] + ['.'] + sp[3]))
  {
    assert sp[1..][1..] == sp[2..] && sp[2..][1..] == sp[3..];
    assert Join(sp[3..], '.') == sp[3];
    assert Join(sp[2..], '.') == sp[2] + ['.'] + sp[3];
    assert Join(sp[1..], '.') == sp[1] + ['.'] + (sp[2] + ['.'] + sp[3]);
  }

  ghost predicate PrintedQuad(text: string) {
    exists a: nat, b: nat, c: nat, d: nat :: a < 256 && b < 256 && c < 256 && d < 256 && text == DottedQuad(a, b, c, d)
  }

  lemma UnsignedPieces(text: string, sep: char)
    requires Unsigned(text)
    ensures forall piece :: piece in Split(text, sep) ==> Unsigned(piece)
  {
    PiecesInside(text, sep);
  }

  lemma OctetsPrint(text: string)
    requires QuadOfOctets(text) && Unsigned(text)
    ensures PrintedQuad(text)
  {
    var sp := Split(text, '.');
    SplitThenJoin(text, '.');
    UnsignedPieces(text, '.');
    assert sp[0] in sp && sp[1] in sp && sp[2] in sp && sp[3] in sp;
    hide Split, Octet, Atoi, Itoa, Unsigned;
    OctetPrints(sp[0]); OctetPrints(sp[1]); OctetPrints(sp[2]); OctetPrints(sp[3]);
    JoinFour(sp);
    var a, b, c, d := Atoi(sp[0]).value, Atoi(sp[1]).value, Atoi(sp[2]).value, Atoi(sp[3]).value;
    assert text == DottedQuad(a, b, c, d);
  }

  lemma UnsignedJoin(a: string, b: string)
    requires Unsigned(a) && Unsigned(b)
    ensures Unsigned(a + ['.'] + b)
  {
  }

  lemma PrintIsUnsigned(a: nat, b: nat, c: nat, d: nat)
    requires a < 256 && b < 256 && c < 256 && d < 256
    ensures QuadOfOctets(DottedQuad(a, b, c, d)) && Unsigned(DottedQuad(a, b, c, d))
  {
    hide Split, Octet, Itoa, Unsigned;
    SplitQuad(a, b, c, d);
    PrintedIsOctet(a); PrintedIsOctet(b); PrintedIsOctet(c); PrintedIsOctet(d);
    UnsignedJoin(Itoa(c), Itoa(d));
    UnsignedJoin(Itoa(b), Itoa(c) + ['.'] + Itoa(d));
    UnsignedJoin(Itoa(a), Itoa(b) + ['.'] + (Itoa(c) + ['.'] + Itoa(d)));
  }

  /** The texts classified as IPv4 are the printed quads of octets, and texts with a sign in them. */
  lemma IPv4Texts(text: string)
    ensures QuadOfOctets(text) && Unsigned(text) <==> PrintedQuad(text)
  {
    hide Split, Octet, Itoa, Unsigned, QuadOfOctets, DottedQuad;
    if QuadOfOctets(text) && Unsigned(text) {
      OctetsPrint(text);
    }
    if PrintedQuad(text) {
      var a: nat, b: nat, c: nat, d: nat :| a < 256 && b < 256 && c < 256 && d < 256 && text == DottedQuad(a, b, c, d);
      PrintIsUnsigned(a, b, c, d);
    }
  }

  lemma SmallNumbers()
    ensures Octet("0") && Octet("-1")
  {
    assert DigitsValue("1") == 1 by { assert "1"[..0] == ""; }
    assert DigitsValue("0") == 0 by { assert "0"[..0] == ""; }
    assert "-1"[1..] == "1";
    assert AllDigits("1") && AllDigits("0");
  }

  /** A sign slips through: an octet below zero is taken for part of an IPv4 address. */
  lemma NegativeOctetPasses()
    ensures QuadOfOctets("-1.0.0.0")
  {
    SmallNumbers();
    hide Split, Octet;
    assert "-1" + ['.'] + ("0" + ['.'] + ("0" + ['.'] + "0")) == "-1.0.0.0";
    SplitFour("-1", "0", "0", "0", '.');
  }

  /** Eight groups of hexadecimal digits with colons between them, all written out. */
  ghost predicate EightGroups(text: string, gs: seq<string>) {
    |gs| == 8 && text == Join(gs, ':') && forall i :: 0 <= i < 8 ==> Group(gs[i])
  }

  lemma {:induction false} SplitOfJoin(gs: seq<string>, sep: char)
    requires gs != [] && forall g :: g in gs ==> sep !in g
    ensures Split(Join(gs, sep), sep) == gs
    decreases |gs|
  {
    if |gs| == 1 {
      SplitWhole(gs[0], sep);
    } else {
      SplitOfJoin(gs[1..], sep);
      SplitAtFirst(gs[0], sep, Join(gs[1..], sep));
      assert gs == [gs[0]] + gs[1..];
    }
  }

  lemma {:induction false} JoinHasOnly(gs: seq<string>, sep: char, c: char)
    requires gs != [] && c != sep && forall g :: g in gs ==> c !in g
    ensures c !in Join(gs, sep)
    decreases |gs|
  {
    if |gs| > 1 {
      JoinHasOnly(gs[1..], sep, c);
    }
  }

  /** The texts classified as IPv6 are exactly those of eight groups; the short form with `::` is none of them. */
  lemma IPv6Texts(text: string)
    ensures IsIPv6(text) <==> exists gs :: EightGroups(text, gs)
    ensures "" in Split(text, ':') ==> !IsIPv6(text)
  {
    hide Split, Join;
    SplitThenJoin(text, ':');
    if IsIPv6(text) {
      assert EightGroups(text, Split(text, ':'));
    }
    if gs :| EightGroups(text, gs) {
      assert forall g :: g in gs ==> ':' !in g && '.' !in g by { GroupsArePlain(gs); }
      hide Group;
      SplitOfJoin(gs, ':');
      JoinHasOnly(gs, ':', '.');
      SplitWhole(text, '.');
    }
  }

  lemma GroupsArePlain(gs: seq<string>)
    requires forall i :: 0 <= i < |gs| ==> Group(gs[i])
    ensures forall g :: g in gs ==> ':' !in g && '.' !in g
  {
    forall g | g in gs
      ensures ':' !in g && '.' !in g
    {
      var i :| 0 <= i < |gs| && gs[i] == g;
      assert Group(gs[i]);
    }
  }

  /** An address written out passes. */
  lemma WrittenOutPasses()
    ensures IsIPv6(Join(["2001", "0db8", "85a3", "0000", "0000", "8a2e", "0370", "7334"], ':'))
  {
    var gs := ["2001", "0db8", "85a3", "0000", "0000", "8a2e", "0370", "7334"];
    assert EightGroups(Join(gs, ':'), gs);
    IPv6Texts(Join(gs, ':'));
    hide IsIPv6, Join, EightGroups;
  }
}
