/** Names the library derives: the COM class id of the activator, built from
    the AUMI by `Util::generateGuid` (src/wintoast.cpp:123-170), and the AUMI
    itself, built by `configureAUMI` (src/wintoast.cpp:361-378). */
module Identity {
  import opened Common
  import opened Codec
  import opened Numbers

  /** Length of a GUID string without braces. */
  const GuidLength: nat := 36

  predicate IsDashPosition(i: nat) {
    i == 8 || i == 13 || i == 18 || i == 23
  }

  /** The position in the hash digits that GUID position `i` shows: the
      dashes before `i` are skipped. */
  function DigitPosition(i: nat): (p: nat)
    requires i < GuidLength && !IsDashPosition(i)
    ensures p < 32
  {
    if i > 23 then i - 4
    else if i > 18 then i - 3
    else if i > 13 then i - 2
    else if i > 8 then i - 1
    else i
  }

  /** One character of the long-name GUID: a dash, a digit of the hash, or
      `'0'` once the digits run out. */
  function GuidChar(digits: string, i: nat): char
    requires i < GuidLength
  {
    if IsDashPosition(i) then '-'
    else if DigitPosition(i) < |digits| then digits[DigitPosition(i)]
    else '0'
  }

  /** The loop of `generateGuid` for names longer than 16 characters, over
      `hashStr = std::to_wstring(hash)`. */
  method GuidFromDigits(digits: string) returns (guid: string)
    ensures |guid| == GuidLength
    ensures forall i :: 0 <= i < GuidLength ==> guid[i] == GuidChar(digits, i)
  {
    guid := [];
    var i := 0;
    while i < 36
      invariant 0 <= i <= 36 && |guid| == i
      invariant forall j :: 0 <= j < i ==> guid[j] == GuidChar(digits, j)
    {
      var c: char;
      if i == 8 || i == 13 || i == 18 || i == 23 {
        c := '-';
      } else {
        var strPos := i;
        if i > 23 {
          strPos := strPos - 4;
        } else if i > 18 {
          strPos := strPos - 3;
        } else if i > 13 {
          strPos := strPos - 2;
        } else if i > 8 {
          strPos := strPos - 1;
        }
        if strPos < |digits| {
          c := digits[strPos];
        } else {
          c := '0';
        }
      }
      guid := guid + [c];
      i := i + 1;
    }
  }

  /** The GUID as a value: what `GuidFromDigits` computes. */
  function Guid(digits: string): (r: string)
    ensures |r| == GuidLength
  {
    seq(GuidLength, i requires 0 <= i < GuidLength => GuidChar(digits, i))
  }

  /** `generateGuid(name)` for a name of more than 16 characters. `std::hash`
      is not part of this model: the caller supplies the hash function. */
  function GenerateGuid(name: string, hash: string -> nat): (r: string)
    requires |name| > 16
    ensures |r| == GuidLength
  {
    Guid(DecimalString(hash(name)))
  }

  /** The GUID without its four dashes. */
  function Undashed(g: string): string
    requires |g| == GuidLength
  {
    g[..8] + g[9..13] + g[14..18] + g[19..23] + g[24..]
  }

  function Zeros(n: nat): (r: string)
    ensures |r| == n && forall i :: 0 <= i < n ==> r[i] == '0'
  {
    seq(n, _ => '0')
  }

  /** Layout of the long-name GUID: dashes at 8, 13, 18 and 23; the other
      32 characters are the hash digits in order, padded with `'0'`. */
  lemma GuidLayout(digits: string)
    requires |digits| <= 32
    ensures Guid(digits)[8] == '-' && Guid(digits)[13] == '-'
    ensures Guid(digits)[18] == '-' && Guid(digits)[23] == '-'
    ensures Undashed(Guid(digits)) == digits + Zeros(32 - |digits|)
  {
    var g := Guid(digits);
    var u := Undashed(g);
    var want := digits + Zeros(32 - |digits|);
    assert |u| == 32;
    forall p | 0 <= p < 32
      ensures u[p] == want[p]
    {
      var i := if p < 8 then p else if p < 12 then p + 1 else if p < 16 then p + 2 else if p < 20 then p + 3 else p + 4;
      assert !IsDashPosition(i) && DigitPosition(i) == p;
      UndashedAt(g, p, i);
    }
  }

  lemma UndashedAt(g: string, p: nat, i: nat)
    requires |g| == GuidLength && p < 32
    requires i == if p < 8 then p else if p < 12 then p + 1 else if p < 16 then p + 2 else if p < 20 then p + 3 else p + 4
    ensures Undashed(g)[p] == g[i]
  {
    var a, b, c, d, e := g[..8], g[9..13], g[14..18], g[19..23], g[24..];
    assert Undashed(g) == a + b + c + d + e;
  }

  /** The long-name GUID, for any hash `std::hash` may return (a 64-bit
      value): 36 characters, four dashes, the hash's decimal digits padded
      with `'0'` to 32. The same name always gives the same GUID. */
  lemma GenerateGuidLayout(name: string, hash: string -> nat)
    requires |name| > 16 && hash(name) < 0x1_0000_0000_0000_0000
    ensures var g := GenerateGuid(name, hash);
      g[8] == '-' && g[13] == '-' && g[18] == '-' && g[23] == '-' &&
      |DecimalString(hash(name))| <= 20 &&
      Undashed(g) == DecimalString(hash(name)) + Zeros(32 - |DecimalString(hash(name))|)
  {
    DecimalLength64(hash(name));
    GuidLayout(DecimalString(hash(name)));
  }

  /** The loop computes the GUID value. */
  method GenerateGuidLoop(name: string, hash: string -> nat) returns (guid: string)
    requires |name| > 16
    ensures guid == GenerateGuid(name, hash)
  {
    guid := GuidFromDigits(DecimalString(hash(name)));
  }

  /* Names of at most 16 characters. */

  /** `%02x` of each value, in order. Two characters per value exactly when
      every value is below 256. */
  function HexRun(codes: seq<nat>): (r: string)
    ensures |r| >= 2 * |codes|
    ensures |r| == 2 * |codes| <==> forall i :: 0 <= i < |codes| ==> codes[i] < 256
  {
    if |codes| == 0 then []
    else
      var r := Hex02(codes[0]) + HexRun(codes[1..]);
      assert forall i :: 1 <= i < |codes| ==> codes[i] == codes[1..][i - 1];
      r
  }

  lemma {:induction false} HexRunAppend(a: seq<nat>, b: seq<nat>)
    ensures HexRun(a + b) == HexRun(a) + HexRun(b)
    decreases |a|
  {
    if |a| > 0 {
      assert (a + b)[0] == a[0];
      assert (a + b)[1..] == a[1..] + b;
      HexRunAppend(a[1..], b);
    } else {
      assert a + b == b;
    }
  }

  /** What the format
      `%02x%02x%02x%02x-%02x%02x-%02x%02x-%02x%02x-%02x%02x%02x%02x%02x%02x`
      writes for sixteen values. */
  function ShortGuidText(codes: seq<nat>): string
    requires |codes| == 16
  {
    HexRun(codes[..4]) + "-" + HexRun(codes[4..6]) + "-" + HexRun(codes[6..8]) + "-" +
    HexRun(codes[8..10]) + "-" + HexRun(codes[10..])
  }

  /** `swprintf_s(buffer, count, ...)`: the text, when it fits in `count`
      characters together with its terminator. Otherwise the
      invalid-parameter handler runs: by default it ends the process, and a
      handler that returns leaves the buffer empty. */
  function FormatInto(count: nat, text: string): (r: Option<string>)
    ensures r.Some? <==> |text| < count
    ensures r.Some? ==> r.value == text
  {
    if |text| + 1 <= count then Some(text) else None
  }

  /** `generateGuid` for a name of at most 16 characters, as written: the
      format goes into `wchar_t guid[36]` with count 36. `codes` are the
      sixteen values `name[0]` to `name[15]`; past the end of a shorter
      name they are whatever the memory there holds. */
  function ShortGuidAsWritten(codes: seq<nat>): Option<string>
    requires |codes| == 16
  {
    FormatInto(GuidLength, ShortGuidText(codes))
  }

  /** Each `%02x` writes at least two digits, so the text has at least 36
      characters and its terminator never fits: the as-written short-name
      branch reaches the invalid-parameter handler for every name. */
  lemma ShortGuidAsWrittenNeverFits(codes: seq<nat>)
    requires |codes| == 16
    ensures |ShortGuidText(codes)| >= GuidLength
    ensures ShortGuidAsWritten(codes) == None
  {
    assert codes == codes[..4] + codes[4..6] + codes[6..8] + codes[8..10] + codes[10..];
    HexRunAppend(codes[..4], codes[4..6]);
    HexRunAppend(codes[..4] + codes[4..6], codes[6..8]);
    HexRunAppend(codes[..4] + codes[4..6] + codes[6..8], codes[8..10]);
    HexRunAppend(codes[..4] + codes[4..6] + codes[6..8] + codes[8..10], codes[10..]);
  }

  /** The values the corrected branch formats: the name's characters, then
      zeros in place of the bytes the name does not have. */
  function ShortCodes(name: string): (r: seq<nat>)
    requires |name| <= 16
    ensures |r| == 16
    ensures forall i :: 0 <= i < |name| ==> r[i] == name[i] as nat
    ensures forall i :: |name| <= i < 16 ==> r[i] == 0
  {
    seq(16, i requires 0 <= i < 16 => if i < |name| then name[i] as nat else 0)
  }

  /** `generateGuid` for a name of at most 16 characters, corrected: a
      buffer of 37 (the GUID and its terminator), and no read past the end
      of the name. */
  function ShortGuid(name: string): Option<string>
    requires |name| <= 16
  {
    FormatInto(GuidLength + 1, ShortGuidText(ShortCodes(name)))
  }

  /** The corrected short-name GUID is formed exactly when every character
      of the name is below 0x100. It then has 36 characters with dashes at
      8, 13, 18 and 23, and the 32 others are the name's characters in
      two-digit hexadecimal, padded with `'0'`. */
  lemma ShortGuidLayout(name: string)
    requires |name| <= 16
    ensures ShortGuid(name).Some? <==> forall i :: 0 <= i < |name| ==> name[i] as nat < 256
    ensures ShortGuid(name).Some? ==>
      var g := ShortGuid(name).value;
      |g| == GuidLength && g[8] == '-' && g[13] == '-' && g[18] == '-' && g[23] == '-' &&
      Undashed(g) == HexRun(ShortCodes(name)[..|name|]) + Zeros(32 - 2 * |name|)
  {
    var c := ShortCodes(name);
    ShortGuidTextLength(c);
    assert (forall i :: 0 <= i < |name| ==> name[i] as nat < 256) <==> (forall i :: 0 <= i < 16 ==> c[i] < 256);
    if ShortGuid(name).Some? {
      ShortGuidTextShape(c);
      ShortCodesSplit(name);
    }
  }

  /** The text is the values' digits with four dashes added. */
  lemma ShortGuidTextLength(c: seq<nat>)
    requires |c| == 16
    ensures |ShortGuidText(c)| == |HexRun(c)| + 4
    ensures HexRun(c) == HexRun(c[..4]) + HexRun(c[4..6]) + HexRun(c[6..8]) + HexRun(c[8..10]) + HexRun(c[10..])
  {
    var a, b, d, e, f := c[..4], c[4..6], c[6..8], c[8..10], c[10..];
    assert c == a + b + d + e + f;
    HexRunAppend(a, b);
    HexRunAppend(a + b, d);
    HexRunAppend(a + b + d, e);
    HexRunAppend(a + b + d + e, f);
  }

  /** When every value is below 256 each group has its nominal width, so the
      dashes fall at 8, 13, 18 and 23. */
  lemma ShortGuidTextShape(c: seq<nat>)
    requires |c| == 16 && forall i :: 0 <= i < 16 ==> c[i] < 256
    ensures var t := ShortGuidText(c);
      |t| == GuidLength && t[8] == '-' && t[13] == '-' && t[18] == '-' && t[23] == '-' &&
      Undashed(t) == HexRun(c)
  {
    var p, q, r, u, v := HexRun(c[..4]), HexRun(c[4..6]), HexRun(c[6..8]), HexRun(c[8..10]), HexRun(c[10..]);
    ShortGuidGroups(c);
    DashedGuid(p, q, r, u, v);
    ShortGuidTextLength(c);
    assert ShortGuidText(c) == p + "-" + q + "-" + r + "-" + u + "-" + v;
  }

  /** The five groups of the short-name format have their nominal widths
      when every value is below 256. */
  lemma ShortGuidGroups(c: seq<nat>)
    requires |c| == 16 && forall i :: 0 <= i < 16 ==> c[i] < 256
    ensures |HexRun(c[..4])| == 8 && |HexRun(c[4..6])| == 4 && |HexRun(c[6..8])| == 4
    ensures |HexRun(c[8..10])| == 4 && |HexRun(c[10..])| == 12
  {
    HexRunExact(c, 0, 4);
    HexRunExact(c, 4, 6);
    HexRunExact(c, 6, 8);
    HexRunExact(c, 8, 10);
    HexRunExact(c, 10, 16);
    assert c[10..16] == c[10..];
  }

  /** A slice of values below 256 takes exactly two characters per value. */
  lemma HexRunExact(c: seq<nat>, lo: nat, hi: nat)
    requires lo <= hi <= |c| && forall i :: 0 <= i < |c| ==> c[i] < 256
    ensures |HexRun(c[lo..hi])| == 2 * (hi - lo)
  {
    var w := c[lo..hi];
    assert forall i :: 0 <= i < |w| ==> w[i] == c[lo + i];
  }

  /** Runs of 8, 4, 4, 4 and 12 characters joined by dashes form a GUID
      whose undashed text is the runs in order. */
  lemma DashedGuid(p: string, q: string, r: string, u: string, v: string)
    requires |p| == 8 && |q| == 4 && |r| == 4 && |u| == 4 && |v| == 12
    ensures var t := p + "-" + q + "-" + r + "-" + u + "-" + v;
      |t| == GuidLength && t[8] == '-' && t[13] == '-' && t[18] == '-' && t[23] == '-' &&
      Undashed(t) == p + q + r + u + v
  {
    var t := p + "-" + q + "-" + r + "-" + u + "-" + v;
    assert t[..8] == p;
    assert t[9..13] == q;
    assert t[14..18] == r;
    assert t[19..23] == u;
    assert t[24..] == v;
  }

  /** The padded values are the name's, then zeros that format as `"00"`. */
  lemma ShortCodesSplit(name: string)
    requires |name| <= 16
    ensures HexRun(ShortCodes(name)) == HexRun(ShortCodes(name)[..|name|]) + Zeros(32 - 2 * |name|)
  {
    var c := ShortCodes(name);
    assert c == c[..|name|] + c[|name|..];
    HexRunAppend(c[..|name|], c[|name|..]);
    HexRunZeros(c[|name|..]);
  }

  lemma {:induction false} HexRunZeros(z: seq<nat>)
    requires forall i :: 0 <= i < |z| ==> z[i] == 0
    ensures HexRun(z) == Zeros(2 * |z|)
    decreases |z|
  {
    if |z| > 0 {
      HexRunZeros(z[1..]);
      assert Hex02(0) == "00";
    }
  }

  /* `configureAUMI`. */

  /** The AUMI a running application is registered under:
      `company.product[.sub[.version]]`, the version only when there is a
      sub-product. The source logs, and nothing more, when the result is
      longer than `SCHAR_MAX`. */
  function ConfigureAumi(company: string, product: string, sub: string, version: string): (r: string)
  {
    var aumi := company + "." + product;
    if sub == "" then aumi
    else if version == "" then aumi + "." + sub
    else aumi + "." + sub + "." + version
  }

  /** The parts `ConfigureAumi` joins, in order. */
  function AumiParts(company: string, product: string, sub: string, version: string): (r: seq<string>)
    ensures |r| >= 2
  {
    [company, product] + (if sub == "" then [] else [sub] + (if version == "" then [] else [version]))
  }

  /** The AUMI is the parts joined with dots, and splitting it on dots gives
      the parts back when no part contains a dot. */
  lemma ConfigureAumiParts(company: string, product: string, sub: string, version: string)
    ensures ConfigureAumi(company, product, sub, version) == Join(AumiParts(company, product, sub, version), '.')
    ensures Lacks(company, '.') && Lacks(product, '.') && Lacks(sub, '.') && Lacks(version, '.') ==>
              Split(ConfigureAumi(company, product, sub, version), '.') == AumiParts(company, product, sub, version)
  {
    var parts := AumiParts(company, product, sub, version);
    ConfigureAumiJoin(company, product, sub, version);
    if Lacks(company, '.') && Lacks(product, '.') && Lacks(sub, '.') && Lacks(version, '.') {
      assert forall k :: 0 <= k < |parts| ==> parts[k] in {company, product, sub, version};
      SplitJoin(parts, '.');
    }
  }

  lemma ConfigureAumiJoin(company: string, product: string, sub: string, version: string)
    ensures ConfigureAumi(company, product, sub, version) == Join(AumiParts(company, product, sub, version), '.')
  {
    var parts := AumiParts(company, product, sub, version);
    if sub == "" {
      JoinTwo(company, product);
      assert parts == [company, product];
    } else if version == "" {
      JoinTwo(product, sub);
      JoinCons(company, [product, sub], '.');
      assert parts == [company] + [product, sub];
      Regroup(company + ".", product + ".", sub);
      Regroup(company, ".", product + "." + sub);
    } else {
      JoinTwo(sub, version);
      JoinCons(product, [sub, version], '.');
      assert [product] + [sub, version] == [product, sub, version];
      JoinCons(company, [product, sub, version], '.');
      assert parts == [company] + [product, sub, version];
      Regroup(product + ".", sub + ".", version);
      Regroup(product, ".", sub + "." + version);
      Regroup(company + "." + product + ".", sub + ".", version);
      Regroup(company + "." + product, ".", sub + "." + version);
      Regroup(company + ".", product, "." + (sub + "." + version));
      Regroup(company + ".", product + ".", sub + "." + version);
      Regroup(company, ".", product + "." + sub + "." + version);
    }
  }

  lemma JoinTwo(a: string, b: string)
    ensures Join([a, b], '.') == a + "." + b
  {
    JoinCons(a, [b], '.');
  }
}
