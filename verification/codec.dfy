/** The string layer of the activation-argument codec
    (src/win_toast_arguments.cpp): `replaceAll`, the percent escaping done by
    `encode` and undone by `decode`, and `splitString`.

    A Dafny `string` stands for a `std::wstring`. Its elements are Unicode
    scalar values, not the UTF-16 code units of a `wchar_t` string: a
    character outside the Basic Multilingual Plane is one element here and
    two in the source, and an unpaired surrogate cannot be written at all.
    Every character the codec itself inspects (`%`, `=`, `;` and the
    escapes) is in the Basic Multilingual Plane. */
module Codec {
  import opened Common

  /** `pat` occurs in `s` starting at index `i`. */
  predicate OccursAt(s: string, pat: string, i: int) {
    0 <= i && i + |pat| <= |s| && s[i..i + |pat|] == pat
  }

  /** `replaceAll(str, from, to)`: scanning left to right, every occurrence
      of `from` is replaced by `to`, and the scan resumes right after the
      inserted text, so what was just inserted is never looked at again. */
  function ReplaceAll(s: string, from: string, to: string): string
    requires |from| > 0
    decreases |s|
  {
    if |s| == 0 then ""
    else if OccursAt(s, from, 0) then to + ReplaceAll(s[|from|..], from, to)
    else [s[0]] + ReplaceAll(s[1..], from, to)
  }

  /** `std::wstring::find(pat, pos)`: the first occurrence at or after `pos`. */
  function Find(s: string, pat: string, pos: nat): (r: Option<nat>)
    requires |pat| > 0
    ensures r.Some? ==> pos <= r.value && OccursAt(s, pat, r.value)
    ensures r.Some? ==> forall j :: pos <= j < r.value ==> !OccursAt(s, pat, j)
    ensures r.None? ==> forall j :: pos <= j ==> !OccursAt(s, pat, j)
    decreases |s| - pos
  {
    if pos + |pat| > |s| then None
    else if OccursAt(s, pat, pos) then Some(pos)
    else Find(s, pat, pos + 1)
  }

  lemma OccursShift(s: string, t: string, pat: string, off: nat, i: nat)
    requires off <= |s| && s[off..] == t
    ensures OccursAt(s, pat, off + i) <==> OccursAt(t, pat, i)
  {
    if OccursAt(t, pat, i) {
      assert s[off + i..off + i + |pat|] == t[i..i + |pat|];
    }
    if OccursAt(s, pat, off + i) {
      assert s[off + i..off + i + |pat|] == t[i..i + |pat|];
    }
  }

  /** A prefix free of occurrences is copied unchanged. */
  lemma {:induction false} ReplaceAllSkip(s: string, from: string, to: string, j: nat)
    requires |from| > 0 && j <= |s|
    requires forall i :: 0 <= i < j ==> !OccursAt(s, from, i)
    ensures ReplaceAll(s, from, to) == s[..j] + ReplaceAll(s[j..], from, to)
  {
    if j > 0 {
      assert !OccursAt(s, from, 0);
      forall i | 0 <= i < j - 1
        ensures !OccursAt(s[1..], from, i)
      {
        OccursShift(s, s[1..], from, 1, i);
      }
      ReplaceAllSkip(s[1..], from, to, j - 1);
      assert ReplaceAll(s, from, to) == [s[0]] + ReplaceAll(s[1..], from, to);
      SliceOfSlice(s, 1, j - 1);
      assert s[..j] == [s[0]] + s[1..][..j - 1];
    }
  }

  /** The first occurrence at `q` is replaced and scanning resumes after it. */
  lemma ReplaceAllAtFirst(t: string, from: string, to: string, q: nat)
    requires |from| > 0 && OccursAt(t, from, q)
    requires forall i :: 0 <= i < q ==> !OccursAt(t, from, i)
    ensures ReplaceAll(t, from, to) == t[..q] + to + ReplaceAll(t[q + |from|..], from, to)
  {
    var rest := t[q + |from|..];
    assert t[q..] == from + rest by {
      assert t[q..q + |from|] == from;
    }
    assert ReplaceAll(t, from, to) == t[..q] + ReplaceAll(t[q..], from, to) by {
      ReplaceAllSkip(t, from, to, q);
    }
    ReplaceAllMatch(rest, from, to);
    Regroup(t[..q], to, ReplaceAll(rest, from, to));
  }

  /** One round of the source loop keeps the loop's bookkeeping true. */
  lemma LoopStep(str: string, from: string, to: string, res: string, startPos: nat, k: nat, p: nat)
    requires |from| > 0 && k <= |str| && startPos <= |res|
    requires res[startPos..] == str[k..]
    requires res[..startPos] + ReplaceAll(str[k..], from, to) == ReplaceAll(str, from, to)
    requires startPos <= p && OccursAt(res, from, p)
    requires forall j :: startPos <= j < p ==> !OccursAt(res, from, j)
    ensures p + |from| <= |res|
    ensures var res' := res[..p] + to + res[p + |from|..];
            var k' := k + (p - startPos) + |from|;
            k < k' <= |str| && p + |to| <= |res'| && res'[p + |to|..] == str[k'..]
            && res'[..p + |to|] + ReplaceAll(str[k'..], from, to) == ReplaceAll(str, from, to)
  {
    var t := str[k..];
    var q := p - startPos;
    OccursShift(res, t, from, startPos, q);
    forall i | 0 <= i < q
      ensures !OccursAt(t, from, i)
    {
      OccursShift(res, t, from, startPos, i);
    }
    ReplaceAllAtFirst(t, from, to, q);
    LoopAssemble(str, from, to, res, startPos, k, p);
  }

  /** The arithmetic of one round, once the first occurrence is known. */
  lemma LoopAssemble(str: string, from: string, to: string, res: string, startPos: nat, k: nat, p: nat)
    requires |from| > 0 && k <= |str| && startPos <= p && p + |from| <= |res|
    requires res[startPos..] == str[k..]
    requires res[..startPos] + ReplaceAll(str[k..], from, to) == ReplaceAll(str, from, to)
    requires ReplaceAll(str[k..], from, to) ==
             str[k..][..p - startPos] + to + ReplaceAll(str[k..][p - startPos + |from|..], from, to)
    ensures var res' := res[..p] + to + res[p + |from|..];
            var k' := k + (p - startPos) + |from|;
            k < k' <= |str| && p + |to| <= |res'| && res'[p + |to|..] == str[k'..]
            && res'[..p + |to|] + ReplaceAll(str[k'..], from, to) == ReplaceAll(str, from, to)
  {
    var q := p - startPos;
    var t := str[k..];
    var k' := k + q + |from|;
    LoopBuffer(str, res, to, startPos, k, p, |from|);
    var head, rest := res[..startPos], ReplaceAll(t[q + |from|..], from, to);
    assert str[k'..] == t[q + |from|..];
    Regroup(head + t[..q], to, rest);
    Regroup(head, t[..q], to + rest);
    Regroup(t[..q], to, rest);
  }

  /** The buffer after one replacement: what precedes the resume position
      and what follows it. */
  lemma LoopBuffer(str: string, res: string, to: string, startPos: nat, k: nat, p: nat, m: nat)
    requires k <= |str| && startPos <= p && p + m <= |res|
    requires res[startPos..] == str[k..]
    ensures var res' := res[..p] + to + res[p + m..];
            var k' := k + (p - startPos) + m;
            k' <= |str| && p + |to| <= |res'| && res'[p + |to|..] == str[k'..] &&
            res'[..p + |to|] == res[..startPos] + str[k..][..p - startPos] + to
  {
    var q := p - startPos;
    SliceSplit(res, str[k..], startPos, q, m);
    SliceOfSlice(str, k, q + m);
    ConcatSlices(res[..p], to, res[p + m..]);
  }

  /** The pieces of `s` around a window inside its suffix `t`. */
  lemma SliceSplit(s: string, t: string, off: nat, q: nat, m: nat)
    requires off + q + m <= |s| && s[off..] == t
    ensures s[..off + q] == s[..off] + t[..q]
    ensures s[off + q + m..] == t[q + m..]
  {
  }

  lemma SliceOfSlice(s: string, k: nat, m: nat)
    requires k + m <= |s|
    ensures s[k..][m..] == s[k + m..]
  {
  }

  lemma ConcatSlices(a: string, b: string, c: string)
    ensures (a + b + c)[..|a| + |b|] == a + b
    ensures (a + b + c)[|a| + |b|..] == c
  {
  }

  /** When no occurrence is left, the loop's buffer is the full result. */
  lemma LoopDone(str: string, from: string, to: string, res: string, startPos: nat, k: nat)
    requires |from| > 0 && k <= |str| && startPos <= |res|
    requires res[startPos..] == str[k..]
    requires res[..startPos] + ReplaceAll(str[k..], from, to) == ReplaceAll(str, from, to)
    requires forall j :: startPos <= j ==> !OccursAt(res, from, j)
    ensures res == ReplaceAll(str, from, to)
  {
    var t := str[k..];
    forall i | 0 <= i < |t|
      ensures !OccursAt(t, from, i)
    {
      OccursShift(res, t, from, startPos, i);
    }
    ReplaceAllSkip(t, from, to, |t|);
    assert t[|t|..] == "";
    assert t[..|t|] == t;
    assert res == res[..startPos] + res[startPos..];
  }

  /** The find/replace loop of `replaceAll` exactly as the source runs it,
      on a growing buffer with a moving start position. */
  method ReplaceAllLoop(str: string, from: string, to: string) returns (res: string)
    requires |from| > 0
    ensures res == ReplaceAll(str, from, to)
  {
    res := str;
    var startPos: nat := 0;
    ghost var k: nat := 0;
    while true
      invariant k <= |str| && startPos <= |res|
      invariant res[startPos..] == str[k..]
      invariant res[..startPos] + ReplaceAll(str[k..], from, to) == ReplaceAll(str, from, to)
      decreases |str| - k
    {
      var found := Find(res, from, startPos);
      if found.None? {
        LoopDone(str, from, to, res, startPos, k);
        break;
      }
      var p := found.value;
      LoopStep(str, from, to, res, startPos, k, p);
      k := k + (p - startPos) + |from|;
      res := res[..p] + to + res[p + |from|..];
      startPos := p + |to|;
    }
  }

  /** With a one-character pattern, `replaceAll` is a character-by-character
      substitution, even when the replacement itself contains the pattern:
      inserted text is never rescanned. */
  function Substitute(s: string, c: char, to: string): string {
    if |s| == 0 then "" else (if s[0] == c then to else [s[0]]) + Substitute(s[1..], c, to)
  }

  lemma {:induction false} ReplaceAllSingleChar(s: string, c: char, to: string)
    ensures ReplaceAll(s, [c], to) == Substitute(s, c, to)
  {
    if |s| > 0 {
      ReplaceAllSingleChar(s[1..], c, to);
      if s[0] == c {
        assert OccursAt(s, [c], 0);
      } else {
        assert s[0..1][0] == s[0];
        assert !OccursAt(s, [c], 0);
      }
    }
  }

  lemma {:induction false} SubstituteAppend(a: string, b: string, c: char, to: string)
    ensures Substitute(a + b, c, to) == Substitute(a, c, to) + Substitute(b, c, to)
  {
    if |a| == 0 {
      assert a + b == b;
    } else {
      assert (a + b)[0] == a[0];
      assert (a + b)[1..] == a[1..] + b;
      SubstituteAppend(a[1..], b, c, to);
    }
  }

  lemma {:induction false} SubstituteLacks(s: string, c: char, to: string)
    requires Lacks(s, c)
    ensures Substitute(s, c, to) == s
  {
    if |s| > 0 {
      SubstituteLacks(s[1..], c, to);
      assert s == [s[0]] + s[1..];
    }
  }

  /* ---------------------------------------------------------------------
     The escape table.
     --------------------------------------------------------------------- */

  /** The eight characters `encode` escapes, in the order it escapes them. */
  const Reserved: string := "%;=\"'<>&"

  predicate IsReserved(c: char) {
    c == '%' || c == ';' || c == '=' || c == '"' || c == '\'' || c == '<' || c == '>' || c == '&'
  }

  /** The seven characters that must never appear raw in an encoded string. */
  predicate IsSpecial(c: char) {
    IsReserved(c) && c != '%'
  }

  /** The escape sequence of a reserved character. */
  function EscapeOf(c: char): string
    requires IsReserved(c)
  {
    if c == '%' then "%25"
    else if c == ';' then "%3B"
    else if c == '=' then "%3D"
    else if c == '"' then "%22"
    else if c == '\'' then "%27"
    else if c == '<' then "%3C"
    else if c == '>' then "%3E"
    else "%26"
  }

  /** One of the eight escape sequences. */
  predicate IsEscape(e: string) {
    e == "%25" || e == "%3B" || e == "%3D" || e == "%22" || e == "%27" || e == "%3C" || e == "%3E" || e == "%26"
  }

  /** Position of a reserved character in the order `encode` handles it. */
  function EncodeOrder(c: char): nat
    requires IsReserved(c)
  {
    if c == '%' then 0
    else if c == ';' then 1
    else if c == '=' then 2
    else if c == '"' then 3
    else if c == '\'' then 4
    else if c == '<' then 5
    else if c == '>' then 6
    else 7
  }

  /** Position in the order `decode` handles it: `%25` comes last. */
  function DecodeOrder(c: char): nat
    requires IsReserved(c)
  {
    if c == '%' then 7 else EncodeOrder(c) - 1
  }

  datatype Rule = Rule(from: string, to: string)

  /** The passes of `encode`, in source order. */
  const EncodeRules: seq<Rule> := [
    Rule("%", "%25"), Rule(";", "%3B"), Rule("=", "%3D"), Rule("\"", "%22"),
    Rule("'", "%27"), Rule("<", "%3C"), Rule(">", "%3E"), Rule("&", "%26")]

  /** The passes of `decode`, in source order. */
  const DecodeRules: seq<Rule> := [
    Rule("%3B", ";"), Rule("%3D", "="), Rule("%22", "\""), Rule("%27", "'"),
    Rule("%3C", "<"), Rule("%3E", ">"), Rule("%26", "&"), Rule("%25", "%")]

  predicate NonEmptyPatterns(rules: seq<Rule>) {
    forall i :: 0 <= i < |rules| ==> |rules[i].from| > 0
  }

  /** Run `replaceAll` once per rule, in order, each pass on the previous
      pass's output. */
  function ApplyRules(s: string, rules: seq<Rule>): string
    requires NonEmptyPatterns(rules)
    decreases |rules|
  {
    if |rules| == 0 then s else ApplyRules(ReplaceAll(s, rules[0].from, rules[0].to), rules[1..])
  }

  /** `encode` (win_toast_arguments.cpp:49-62). */
  function Encode(s: string): string {
    ApplyRules(s, EncodeRules)
  }

  /** `decode` (win_toast_arguments.cpp:64-77). */
  function Decode(s: string): string {
    ApplyRules(s, DecodeRules)
  }

  /** Reference meaning of `encode`: each reserved character becomes its
      escape sequence, every other character is kept. */
  function EscapeAll(s: string): string {
    if |s| == 0 then "" else (if IsReserved(s[0]) then EscapeOf(s[0]) else [s[0]]) + EscapeAll(s[1..])
  }

  /* Encoding after the first k passes: characters whose turn has come are
     escaped, the others are still raw. */

  function EncTok(c: char, k: nat): string {
    if IsReserved(c) && EncodeOrder(c) < k then EscapeOf(c) else [c]
  }

  function EncStage(s: string, k: nat): string {
    if |s| == 0 then "" else EncTok(s[0], k) + EncStage(s[1..], k)
  }

  /* Decoding after the first k passes over a fully escaped string. */

  function DecTok(c: char, k: nat): string {
    if IsReserved(c) && DecodeOrder(c) >= k then EscapeOf(c) else [c]
  }

  function DecStage(s: string, k: nat): string {
    if |s| == 0 then "" else DecTok(s[0], k) + DecStage(s[1..], k)
  }

  lemma EncodeRuleShape(k: nat)
    requires k < 8
    ensures |EncodeRules[k].from| == 1 && IsReserved(EncodeRules[k].from[0])
    ensures EncodeOrder(EncodeRules[k].from[0]) == k
    ensures EncodeRules[k].to == EscapeOf(EncodeRules[k].from[0])
  {
  }

  lemma DecodeRuleShape(k: nat)
    requires k < 8
    ensures |DecodeRules[k].to| == 1 && IsReserved(DecodeRules[k].to[0])
    ensures DecodeOrder(DecodeRules[k].to[0]) == k
    ensures DecodeRules[k].from == EscapeOf(DecodeRules[k].to[0])
  {
  }

  lemma EscapeShape(c: char)
    requires IsReserved(c)
    ensures |EscapeOf(c)| == 3 && EscapeOf(c)[0] == '%'
    ensures EscapeOf(c)[1] != '%' && EscapeOf(c)[2] != '%'
    ensures forall i :: 0 <= i < 3 ==> !IsSpecial(EscapeOf(c)[i])
    ensures IsEscape(EscapeOf(c))
  {
  }

  lemma EncodeOrderInjective(c: char, d: char)
    requires IsReserved(c) && IsReserved(d) && c != d
    ensures EncodeOrder(c) != EncodeOrder(d) && EscapeOf(c) != EscapeOf(d)
  {
  }

  lemma {:induction false} EncStep(s: string, k: nat)
    requires k < 8
    ensures ReplaceAll(EncStage(s, k), EncodeRules[k].from, EncodeRules[k].to) == EncStage(s, k + 1)
  {
    EncodeRuleShape(k);
    var ch := EncodeRules[k].from[0];
    var to := EncodeRules[k].to;
    assert EncodeRules[k].from == [ch];
    ReplaceAllSingleChar(EncStage(s, k), ch, to);
    EncStageSubstitute(s, k);
  }

  lemma {:induction false} EncStageSubstitute(s: string, k: nat)
    requires k < 8
    ensures Substitute(EncStage(s, k), EncodeRules[k].from[0], EncodeRules[k].to) == EncStage(s, k + 1)
  {
    if |s| > 0 {
      var ch := EncodeRules[k].from[0];
      var to := EncodeRules[k].to;
      SubstituteAppend(EncTok(s[0], k), EncStage(s[1..], k), ch, to);
      EncStageSubstitute(s[1..], k);
      EncTokStep(s[0], k);
    }
  }

  /** Pass `k` escapes exactly the characters whose turn it is. */
  lemma EncTokStep(c: char, k: nat)
    requires k < 8
    ensures Substitute(EncTok(c, k), EncodeRules[k].from[0], EncodeRules[k].to) == EncTok(c, k + 1)
  {
    EncodeRuleShape(k);
    var ch := EncodeRules[k].from[0];
    var to := EncodeRules[k].to;
    if IsReserved(c) && EncodeOrder(c) < k {
      EscapeShape(c);
      assert IsSpecial(ch);
      assert Lacks(EscapeOf(c), ch);
      SubstituteLacks(EscapeOf(c), ch, to);
    } else {
      assert Substitute([c], ch, to) == (if c == ch then to else [c]) + Substitute([c][1..], ch, to);
      if c != ch && IsReserved(c) {
        EncodeOrderInjective(c, ch);
      }
    }
  }

  lemma {:induction false} EncodeStages(s: string, k: nat)
    requires k <= 8
    ensures ApplyRules(EncStage(s, k), EncodeRules[k..]) == EncStage(s, 8)
    decreases 8 - k
  {
    if k < 8 {
      EncStep(s, k);
      assert EncodeRules[k..][1..] == EncodeRules[k + 1..];
      EncodeStages(s, k + 1);
    } else {
      assert EncodeRules[k..] == [];
    }
  }

  lemma {:induction false} EncStageZero(s: string)
    ensures EncStage(s, 0) == s
  {
    if |s| > 0 {
      EncStageZero(s[1..]);
      assert s == [s[0]] + s[1..];
    }
  }

  lemma {:induction false} EncStageFull(s: string)
    ensures EncStage(s, 8) == EscapeAll(s)
  {
    if |s| > 0 {
      EncStageFull(s[1..]);
    }
  }

  /** `encode` is the per-character escape map `EscapeAll`. */
  lemma EncodeIsEscapeAll(s: string)
    ensures Encode(s) == EscapeAll(s)
  {
    EncStageZero(s);
    EncodeStages(s, 0);
    assert EncodeRules[0..] == EncodeRules;
    EncStageFull(s);
  }

  /* Three facts about `replaceAll` on a single token followed by the rest. */

  lemma ReplaceAllOtherChar(x: char, rest: string, from: string, to: string)
    requires |from| > 0 && x != from[0]
    ensures ReplaceAll([x] + rest, from, to) == [x] + ReplaceAll(rest, from, to)
  {
    var s := [x] + rest;
    assert |from| <= |s| ==> s[0..|from|][0] == x;
    assert !OccursAt(s, from, 0);
    assert s[1..] == rest;
  }

  lemma ReplaceAllMatch(rest: string, from: string, to: string)
    requires |from| > 0
    ensures ReplaceAll(from + rest, from, to) == to + ReplaceAll(rest, from, to)
  {
    var s := from + rest;
    assert s[0..|from|] == from;
    assert s[|from|..] == rest;
  }

  lemma ReplaceAllOtherEscape(e: string, rest: string, from: string, to: string)
    requires |from| == 3 && |e| == 3 && e != from
    requires e[1] != from[0] && e[2] != from[0]
    ensures ReplaceAll(e + rest, from, to) == e + ReplaceAll(rest, from, to)
  {
    var s := e + rest;
    assert s[0..3] == e;
    assert !OccursAt(s, from, 0);
    assert s[1..] == [e[1]] + ([e[2]] + rest);
    ReplaceAllOtherChar(e[2], rest, from, to);
    ReplaceAllOtherChar(e[1], [e[2]] + rest, from, to);
    assert s == [e[0]] + s[1..];
    assert e == [e[0]] + [e[1]] + [e[2]];
  }

  lemma {:induction false} DecStep(s: string, k: nat)
    requires k < 8
    ensures ReplaceAll(DecStage(s, k), DecodeRules[k].from, DecodeRules[k].to) == DecStage(s, k + 1)
  {
    DecodeRuleShape(k);
    var ch := DecodeRules[k].to[0];
    var from := DecodeRules[k].from;
    var to := DecodeRules[k].to;
    assert to == [ch];
    EscapeShape(ch);
    if |s| > 0 {
      var c := s[0];
      var rest := DecStage(s[1..], k);
      assert DecStage(s, k) == DecTok(c, k) + rest;
      DecStep(s[1..], k);
      if IsReserved(c) && DecodeOrder(c) >= k {
        EscapeShape(c);
        if DecodeOrder(c) == k {
          assert c == ch;
          ReplaceAllMatch(rest, from, to);
        } else {
          EncodeOrderInjective(c, ch);
          ReplaceAllOtherEscape(EscapeOf(c), rest, from, to);
        }
      } else {
        assert c != '%';
        ReplaceAllOtherChar(c, rest, from, to);
      }
    }
  }

  lemma {:induction false} DecodeStages(s: string, k: nat)
    requires k <= 8
    ensures ApplyRules(DecStage(s, k), DecodeRules[k..]) == DecStage(s, 8)
    decreases 8 - k
  {
    if k < 8 {
      DecStep(s, k);
      assert DecodeRules[k..][1..] == DecodeRules[k + 1..];
      DecodeStages(s, k + 1);
    } else {
      assert DecodeRules[k..] == [];
    }
  }

  lemma {:induction false} DecStageZero(s: string)
    ensures DecStage(s, 0) == EscapeAll(s)
  {
    if |s| > 0 {
      DecStageZero(s[1..]);
    }
  }

  lemma {:induction false} DecStageFull(s: string)
    ensures DecStage(s, 8) == s
  {
    if |s| > 0 {
      DecStageFull(s[1..]);
      assert s == [s[0]] + s[1..];
    }
  }

  /** `decode(encode(s)) == s` for every string. */
  lemma DecodeEncode(s: string)
    ensures Decode(Encode(s)) == s
  {
    EncodeIsEscapeAll(s);
    DecStageZero(s);
    DecodeStages(s, 0);
    assert DecodeRules[0..] == DecodeRules;
    DecStageFull(s);
  }

  /** Every `%` of `t` starts one of the eight escape sequences. */
  predicate WellEscaped(t: string) {
    forall i :: 0 <= i < |t| && t[i] == '%' ==> i + 3 <= |t| && IsEscape(t[i..i + 3])
  }

  /** No character of `t` is one of `; = " ' < > &`. */
  predicate NoSpecial(t: string) {
    forall i :: 0 <= i < |t| ==> !IsSpecial(t[i])
  }

  lemma {:induction false} EscapeAllShape(s: string)
    ensures NoSpecial(EscapeAll(s)) && WellEscaped(EscapeAll(s))
  {
    if |s| > 0 {
      EscapeAllShape(s[1..]);
      var tok := if IsReserved(s[0]) then EscapeOf(s[0]) else [s[0]];
      if IsReserved(s[0]) {
        EscapeShape(s[0]);
      }
      assert NoSpecial(tok);
      assert tok[0] == '%' ==> |tok| == 3 && IsEscape(tok);
      assert forall i :: 1 <= i < |tok| ==> tok[i] != '%';
      ConsShape(tok, EscapeAll(s[1..]));
    }
  }

  /** A token that is a plain character or a whole escape keeps the shape
      of what follows it. */
  lemma ConsShape(tok: string, rest: string)
    requires |tok| > 0 && NoSpecial(tok) && NoSpecial(rest) && WellEscaped(rest)
    requires tok[0] == '%' ==> |tok| == 3 && IsEscape(tok)
    requires forall i :: 1 <= i < |tok| ==> tok[i] != '%'
    ensures NoSpecial(tok + rest) && WellEscaped(tok + rest)
  {
    var t := tok + rest;
    forall i | 0 <= i < |t| && t[i] == '%'
      ensures i + 3 <= |t| && IsEscape(t[i..i + 3])
    {
      if i < |tok| {
        AppendSlice([], tok, 0, 3);
      } else {
        var j := i - |tok|;
        assert rest[j] == '%';
        AppendSlice(tok, rest, j, 3);
      }
    }
    forall i | 0 <= i < |t|
      ensures !IsSpecial(t[i])
    {
      if i >= |tok| {
        assert t[i] == rest[i - |tok|];
      }
    }
  }

  lemma AppendSlice(a: string, b: string, j: nat, m: nat)
    requires j + m <= |b|
    ensures (a + b)[|a| + j..|a| + j + m] == b[j..j + m]
  {
  }

  /** `encode`'s output contains none of `; = " ' < > &`, and each `%` in it
      begins an escape sequence. */
  lemma EncodeOutputShape(s: string)
    ensures NoSpecial(Encode(s)) && WellEscaped(Encode(s))
  {
    EncodeIsEscapeAll(s);
    EscapeAllShape(s);
  }

  /** A string without reserved characters is left as it is by `encode`. */
  lemma {:induction false} EncodePlain(s: string)
    requires forall i :: 0 <= i < |s| ==> !IsReserved(s[i])
    ensures Encode(s) == s
  {
    EncodeIsEscapeAll(s);
    EscapeAllPlain(s);
  }

  lemma {:induction false} EscapeAllPlain(s: string)
    requires forall i :: 0 <= i < |s| ==> !IsReserved(s[i])
    ensures EscapeAll(s) == s
  {
    if |s| > 0 {
      EscapeAllPlain(s[1..]);
      assert s == [s[0]] + s[1..];
    }
  }

  /* ---------------------------------------------------------------------
     splitString (win_toast_arguments.cpp:36-47).
     --------------------------------------------------------------------- */

  /** `std::wstring::find(c)`: the index of the first `c`. */
  function IndexOf(s: string, c: char): (r: Option<nat>)
    ensures r.Some? ==> r.value < |s| && s[r.value] == c && Lacks(s[..r.value], c)
    ensures r.None? ==> Lacks(s, c)
  {
    if |s| == 0 then None
    else if s[0] == c then Some(0)
    else match IndexOf(s[1..], c)
      case None => None
      case Some(i) => assert s[..i + 1] == [s[0]] + s[1..][..i]; Some(i + 1)
  }

  lemma IndexOfAt(s: string, d: char, i: nat)
    requires i < |s| && s[i] == d && Lacks(s[..i], d)
    ensures IndexOf(s, d) == Some(i)
  {
    assert forall j :: 0 <= j < i ==> s[..i][j] == s[j];
    ghost var r := IndexOf(s, d);
    assert r.Some? ==> forall j :: 0 <= j < r.value ==> s[..r.value][j] == s[j];
  }

  /** `splitString(str, delim)`: cut at each delimiter; the piece after the
      last delimiter (possibly empty) is always emitted. */
  function Split(s: string, d: char): (r: seq<string>)
    ensures |r| >= 1
    decreases |s|
  {
    match IndexOf(s, d)
    case None => [s]
    case Some(i) => [s[..i]] + Split(s[i + 1..], d)
  }

  /** The inverse of `Split`: pieces glued with the delimiter. */
  function Join(xs: seq<string>, d: char): string
    decreases |xs|
  {
    if |xs| == 0 then ""
    else if |xs| == 1 then xs[0]
    else xs[0] + [d] + Join(xs[1..], d)
  }

  /** Joining a first piece onto the rest. */
  lemma JoinCons(x: string, rest: seq<string>, d: char)
    requires |rest| > 0
    ensures Join([x] + rest, d) == x + [d] + Join(rest, d)
  {
    assert ([x] + rest)[1..] == rest;
  }

  /** Number of pieces is one more than the number of delimiters, and no
      piece contains the delimiter. */
  lemma {:induction false} SplitPieces(s: string, d: char)
    ensures |Split(s, d)| == Count(s, d) + 1
    ensures forall k :: 0 <= k < |Split(s, d)| ==> Lacks(Split(s, d)[k], d)
    decreases |s|
  {
    match IndexOf(s, d)
    case None =>
      CountLacks(s, d);
    case Some(i) =>
      SplitPieces(s[i + 1..], d);
      assert s == s[..i] + [d] + s[i + 1..];
      CountAppend(s[..i] + [d], s[i + 1..], d);
      CountAppend(s[..i], [d], d);
      CountLacks(s[..i], d);
      assert Count([d], d) == 1 + Count([d][1..], d);
      var r := Split(s, d);
      forall k | 0 <= k < |r|
        ensures Lacks(r[k], d)
      {
        if k > 0 {
          assert r[k] == Split(s[i + 1..], d)[k - 1];
        }
      }
  }

  /** Joining the pieces gives back the input. */
  lemma {:induction false} JoinSplit(s: string, d: char)
    ensures Join(Split(s, d), d) == s
    decreases |s|
  {
    match IndexOf(s, d)
    case None =>
    case Some(i) =>
      JoinSplit(s[i + 1..], d);
      var rest := Split(s[i + 1..], d);
      JoinCons(s[..i], rest, d);
      assert s == s[..i] + [d] + s[i + 1..];
  }

  /** Splitting a join of delimiter-free pieces gives back the pieces. */
  lemma {:induction false} SplitJoin(xs: seq<string>, d: char)
    requires |xs| > 0
    requires forall k :: 0 <= k < |xs| ==> Lacks(xs[k], d)
    ensures Split(Join(xs, d), d) == xs
    decreases |xs|
  {
    if |xs| == 1 {
      assert Join(xs, d) == xs[0];
    } else {
      var s := Join(xs, d);
      var tail := Join(xs[1..], d);
      assert s == xs[0] + [d] + tail;
      var i := |xs[0]|;
      assert s[..i] == xs[0];
      assert s[i] == d;
      IndexOfAt(s, d, i);
      assert s[i + 1..] == tail;
      SplitJoin(xs[1..], d);
      assert xs == [xs[0]] + xs[1..];
    }
  }
}
