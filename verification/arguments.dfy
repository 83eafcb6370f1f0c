/** `WinToastArguments` (include/wintoastlib.h:35-69,
    src/win_toast_arguments.cpp:79-166): a `std::map<std::wstring,
    std::wstring>` with a `key=value;key=value` serialisation.

    The ordered map is represented as a list of entries with strictly
    ascending keys, which is how `std::map` iterates; `ToMap` gives the
    plain mathematical map it stands for. */
module Arguments {
  import opened Common
  import opened Codec

  /** The key order: character by character, a proper prefix first. This
      is `std::wstring`'s code-unit order for keys within the Basic
      Multilingual Plane; see the README for keys outside it. */
  predicate Less(a: string, b: string)
    decreases |a|
  {
    if |a| == 0 then |b| > 0
    else if |b| == 0 then false
    else a[0] < b[0] || (a[0] == b[0] && Less(a[1..], b[1..]))
  }

  lemma {:induction false} LessIrreflexive(a: string)
    ensures !Less(a, a)
    decreases |a|
  {
    if |a| > 0 {
      LessIrreflexive(a[1..]);
    }
  }

  lemma {:induction false} LessTransitive(a: string, b: string, c: string)
    requires Less(a, b) && Less(b, c)
    ensures Less(a, c)
    decreases |a|
  {
    if |a| > 0 && |b| > 0 && |c| > 0 && a[0] == b[0] == c[0] {
      LessTransitive(a[1..], b[1..], c[1..]);
    }
  }

  lemma {:induction false} LessTotal(a: string, b: string)
    ensures a == b || Less(a, b) || Less(b, a)
    decreases |a|
  {
    if |a| > 0 && |b| > 0 && a[0] == b[0] {
      LessTotal(a[1..], b[1..]);
      if a[1..] == b[1..] {
        assert a == [a[0]] + a[1..] && b == [b[0]] + b[1..];
      }
    }
  }

  lemma {:induction false} LessAsymmetric(a: string, b: string)
    requires Less(a, b)
    ensures !Less(b, a)
  {
    if Less(b, a) {
      LessTransitive(a, b, a);
      LessIrreflexive(a);
    }
  }

  datatype Entry = Entry(key: string, value: string)

  /** Keys strictly ascending: unique keys in iteration order. */
  predicate Ordered(ps: seq<Entry>) {
    forall i, j :: 0 <= i < j < |ps| ==> Less(ps[i].key, ps[j].key)
  }

  /** The abstract map a list of entries stands for. */
  function ToMap(ps: seq<Entry>): map<string, string>
    decreases |ps|
  {
    if |ps| == 0 then map[] else ToMap(ps[1..])[ps[0].key := ps[0].value]
  }

  lemma {:induction false} ToMapKeys(ps: seq<Entry>, k: string)
    ensures k in ToMap(ps) <==> exists i :: 0 <= i < |ps| && ps[i].key == k
    decreases |ps|
  {
    if |ps| > 0 {
      ToMapKeys(ps[1..], k);
      if k in ToMap(ps[1..]) {
        var i :| 0 <= i < |ps[1..]| && ps[1..][i].key == k;
        assert ps[i + 1].key == k;
      }
      if exists i :: 0 <= i < |ps| && ps[i].key == k {
        var i :| 0 <= i < |ps| && ps[i].key == k;
        if i > 0 {
          assert ps[1..][i - 1].key == k;
        }
      }
    }
  }

  /** A key smaller than every key of an ordered list is not in it. */
  lemma BelowAll(ps: seq<Entry>, k: string)
    requires Above(k, ps)
    ensures k !in ToMap(ps)
  {
    ToMapKeys(ps, k);
    if k in ToMap(ps) {
      var i :| 0 <= i < |ps| && ps[i].key == k;
      LessIrreflexive(k);
    }
  }

  /** The number of entries equals the number of keys. */
  lemma {:induction false} ToMapSize(ps: seq<Entry>)
    requires Ordered(ps)
    ensures |ToMap(ps)| == |ps|
    decreases |ps|
  {
    if |ps| > 0 {
      OrderedTail(ps);
      ToMapSize(ps[1..]);
      BelowAll(ps[1..], ps[0].key);
    }
  }

  /** Every key of `ps` is above `x`. */
  predicate Above(x: string, ps: seq<Entry>) {
    forall i :: 0 <= i < |ps| ==> Less(x, ps[i].key)
  }

  lemma ConsOrdered(e: Entry, ps: seq<Entry>)
    requires Ordered(ps) && Above(e.key, ps)
    ensures Ordered([e] + ps)
  {
    var r := [e] + ps;
    forall i, j | 0 <= i < j < |r|
      ensures Less(r[i].key, r[j].key)
    {
      assert r[j] == ps[j - 1];
      if i > 0 {
        assert r[i] == ps[i - 1];
      }
    }
  }

  lemma ConsAbove(x: string, e: Entry, ps: seq<Entry>)
    requires Less(x, e.key) && Above(x, ps)
    ensures Above(x, [e] + ps)
  {
    var r := [e] + ps;
    forall i | 0 < i < |r|
      ensures Less(x, r[i].key)
    {
      assert r[i] == ps[i - 1];
    }
  }

  lemma OrderedTail(ps: seq<Entry>)
    requires Ordered(ps) && |ps| > 0
    ensures Ordered(ps[1..]) && Above(ps[0].key, ps[1..])
  {
    forall i | 0 <= i < |ps[1..]|
      ensures Less(ps[0].key, ps[1..][i].key)
    {
      assert ps[1..][i] == ps[i + 1];
    }
  }

  lemma AboveTail(x: string, ps: seq<Entry>)
    requires Above(x, ps) && |ps| > 0
    ensures Above(x, ps[1..]) && Less(x, ps[0].key)
  {
    forall i | 0 <= i < |ps[1..]|
      ensures Less(x, ps[1..][i].key)
    {
      assert ps[1..][i] == ps[i + 1];
    }
  }

  /** Anything below the first key of an ordered list is below all of it. */
  lemma AboveFirst(x: string, ps: seq<Entry>)
    requires Ordered(ps) && |ps| > 0 && Less(x, ps[0].key)
    ensures Above(x, ps)
  {
    forall j | 0 < j < |ps|
      ensures Less(x, ps[j].key)
    {
      LessTransitive(x, ps[0].key, ps[j].key);
    }
  }

  /** `add(key, value)` and `operator[](key) = value`: insert or overwrite. */
  function Insert(ps: seq<Entry>, k: string, v: string): (r: seq<Entry>)
    requires Ordered(ps)
    ensures Ordered(r)
    ensures ToMap(r) == ToMap(ps)[k := v]
    ensures forall x :: Above(x, ps) && Less(x, k) ==> Above(x, r)
    decreases |ps|
  {
    if |ps| == 0 then
      ConsOrdered(Entry(k, v), []);
      assert forall x :: Less(x, k) ==> Above(x, [Entry(k, v)]);
      [Entry(k, v)]
    else if ps[0].key == k then
      OrderedTail(ps);
      BelowAll(ps[1..], k);
      ConsOrdered(Entry(k, v), ps[1..]);
      var r := [Entry(k, v)] + ps[1..];
      assert forall x :: Above(x, ps) && Less(x, k) ==> Above(x, r) by {
        forall x | Above(x, ps) && Less(x, k) ensures Above(x, r) {
          AboveTail(x, ps);
          ConsAbove(x, Entry(k, v), ps[1..]);
        }
      }
      r
    else if Less(k, ps[0].key) then
      AboveFirst(k, ps);
      ConsOrdered(Entry(k, v), ps);
      var r := [Entry(k, v)] + ps;
      assert forall x :: Above(x, ps) && Less(x, k) ==> Above(x, r) by {
        forall x | Above(x, ps) && Less(x, k) ensures Above(x, r) {
          ConsAbove(x, Entry(k, v), ps);
        }
      }
      r
    else
      LessTotal(k, ps[0].key);
      OrderedTail(ps);
      var rest := Insert(ps[1..], k, v);
      ConsOrdered(ps[0], rest);
      var r := [ps[0]] + rest;
      assert forall x :: Above(x, ps) && Less(x, k) ==> Above(x, r) by {
        forall x | Above(x, ps) && Less(x, k) ensures Above(x, r) {
          AboveTail(x, ps);
          ConsAbove(x, ps[0], rest);
        }
      }
      r
  }

  /** `remove(key)`: erase the key; the flag says whether it was there. */
  function Remove(ps: seq<Entry>, k: string): (r: (seq<Entry>, bool))
    requires Ordered(ps)
    ensures Ordered(r.0)
    ensures r.1 <==> k in ToMap(ps)
    ensures ToMap(r.0) == ToMap(ps) - {k}
    ensures forall x :: Above(x, ps) ==> Above(x, r.0)
    decreases |ps|
  {
    if |ps| == 0 then ([], false)
    else if ps[0].key == k then
      OrderedTail(ps);
      BelowAll(ps[1..], k);
      assert forall x :: Above(x, ps) ==> Above(x, ps[1..]) by {
        forall x | Above(x, ps) ensures Above(x, ps[1..]) {
          AboveTail(x, ps);
        }
      }
      (ps[1..], true)
    else
      OrderedTail(ps);
      var (rest, found) := Remove(ps[1..], k);
      ConsOrdered(ps[0], rest);
      var r := [ps[0]] + rest;
      assert forall x :: Above(x, ps) ==> Above(x, r) by {
        forall x | Above(x, ps) ensures Above(x, r) {
          AboveTail(x, ps);
          ConsAbove(x, ps[0], rest);
        }
      }
      (r, found)
  }

  /** `get(key)`: the value, or `None` where `std::map::at` throws
      `std::out_of_range`. */
  function Get(ps: seq<Entry>, k: string): (r: Option<string>)
    ensures r.Some? <==> k in ToMap(ps)
    ensures r.Some? ==> r.value == ToMap(ps)[k]
    decreases |ps|
  {
    if |ps| == 0 then None
    else if ps[0].key == k then Some(ps[0].value)
    else Get(ps[1..], k)
  }

  /** `contains(key)`. */
  function Contains(ps: seq<Entry>, k: string): (r: bool)
    ensures r <==> k in ToMap(ps)
  {
    Get(ps, k).Some?
  }

  /** `empty()`. */
  function IsEmpty(ps: seq<Entry>): (r: bool)
    ensures r <==> ToMap(ps) == map[]
  {
    if |ps| == 0 then true
    else
      assert ps[0].key in ToMap(ps);
      false
  }

  /** `size()`. */
  function Size(ps: seq<Entry>): (r: nat)
    requires Ordered(ps)
    ensures r == |ToMap(ps)|
  {
    ToMapSize(ps);
    |ps|
  }

  /** `operator[](key)` used as a read: a missing key is first inserted with
      an empty value. Returns the new contents and the value. */
  function Index(ps: seq<Entry>, k: string): (r: (seq<Entry>, string))
    requires Ordered(ps)
    ensures Ordered(r.0)
    ensures ToMap(r.0) == if k in ToMap(ps) then ToMap(ps) else ToMap(ps)[k := ""]
    ensures k in ToMap(r.0) && r.1 == ToMap(r.0)[k]
  {
    match Get(ps, k)
    case Some(v) => (ps, v)
    case None => (Insert(ps, k, ""), "")
  }

  /* ---------------------------------------------------------------------
     Serialisation.
     --------------------------------------------------------------------- */

  /** `encodePair`: an empty value is written as the encoded key alone. */
  function EncodePair(e: Entry): string {
    if e.value == "" then Encode(e.key) else Encode(e.key) + "=" + Encode(e.value)
  }

  function Segments(ps: seq<Entry>): (r: seq<string>)
    ensures |r| == |ps|
    ensures forall i :: 0 <= i < |ps| ==> r[i] == EncodePair(ps[i])
    decreases |ps|
  {
    if |ps| == 0 then [] else [EncodePair(ps[0])] + Segments(ps[1..])
  }

  /** `toString()`: the entries in ascending key order, `;`-separated. */
  function ToString(ps: seq<Entry>): string {
    if |ps| == 0 then "" else Join(Segments(ps), ';')
  }

  /** `arguments.find_first_not_of(' ') == npos`. */
  predicate Blank(s: string) {
    forall i :: 0 <= i < |s| ==> s[i] == ' '
  }

  /** One segment of `parse`, cut at its first `=`. */
  function ParsePair(seg: string): Entry {
    match IndexOf(seg, '=')
    case None => Entry(Decode(seg), "")
    case Some(i) => Entry(Decode(seg[..i]), Decode(seg[i + 1..]))
  }

  /** `mPairs[key] = value` for each segment in turn. */
  function AddAll(acc: seq<Entry>, segs: seq<string>): (r: seq<Entry>)
    requires Ordered(acc)
    ensures Ordered(r)
    decreases |segs|
  {
    if |segs| == 0 then acc
    else
      var e := ParsePair(segs[0]);
      AddAll(Insert(acc, e.key, e.value), segs[1..])
  }

  /** `parse(arguments)` (and the constructor taking a string): the previous
      contents are dropped; a blank input gives the empty map. */
  function Parse(s: string): (r: seq<Entry>)
    ensures Ordered(r)
  {
    if Blank(s) then [] else AddAll([], Split(s, ';'))
  }

  /* Properties of parse. */

  /** Folding the segments into a plain map: later segments overwrite. */
  function FoldPairs(m: map<string, string>, segs: seq<string>): map<string, string>
    decreases |segs|
  {
    if |segs| == 0 then m
    else FoldPairs(m[ParsePair(segs[0]).key := ParsePair(segs[0]).value], segs[1..])
  }

  lemma {:induction false} AddAllMap(acc: seq<Entry>, segs: seq<string>)
    requires Ordered(acc)
    ensures ToMap(AddAll(acc, segs)) == FoldPairs(ToMap(acc), segs)
    decreases |segs|
  {
    if |segs| > 0 {
      var e := ParsePair(segs[0]);
      AddAllMap(Insert(acc, e.key, e.value), segs[1..]);
    }
  }

  /** The decoded keys of the segments, in order. */
  function SegmentKeys(segs: seq<string>): (r: seq<string>)
    ensures |r| == |segs|
    ensures forall j :: 0 <= j < |segs| ==> r[j] == ParsePair(segs[j]).key
    decreases |segs|
  {
    if |segs| == 0 then [] else [ParsePair(segs[0]).key] + SegmentKeys(segs[1..])
  }

  /** The key set after folding: old keys plus the keys of all segments. */
  lemma {:induction false} FoldKeys(m: map<string, string>, segs: seq<string>, k: string)
    ensures k in FoldPairs(m, segs) <==> k in m || k in SegmentKeys(segs)
    decreases |segs|
  {
    if |segs| > 0 {
      var e := ParsePair(segs[0]);
      FoldKeys(m[e.key := e.value], segs[1..], k);
      assert SegmentKeys(segs) == [e.key] + SegmentKeys(segs[1..]);
    }
  }

  /** The value of a key after folding is the one from its last segment. */
  lemma {:induction false} FoldLastWins(m: map<string, string>, segs: seq<string>, j: nat)
    requires j < |segs|
    requires forall j' :: j < j' < |segs| ==> ParsePair(segs[j']).key != ParsePair(segs[j]).key
    ensures ParsePair(segs[j]).key in FoldPairs(m, segs)
    ensures FoldPairs(m, segs)[ParsePair(segs[j]).key] == ParsePair(segs[j]).value
    decreases |segs|
  {
    var e := ParsePair(segs[0]);
    var m' := m[e.key := e.value];
    var rest := segs[1..];
    assert FoldPairs(m, segs) == FoldPairs(m', rest);
    if j == 0 {
      FirstKeyLast(segs);
      FoldUntouched(m', rest, e.key);
    } else {
      assert rest[j - 1] == segs[j];
      LaterKeysShift(segs, j);
      FoldLastWins(m', rest, j - 1);
    }
  }

  /** When the first segment is the last with its key, no later segment
      has that key. */
  lemma FirstKeyLast(segs: seq<string>)
    requires 0 < |segs|
    requires forall j' :: 0 < j' < |segs| ==> ParsePair(segs[j']).key != ParsePair(segs[0]).key
    ensures forall j :: 0 <= j < |segs[1..]| ==> ParsePair(segs[1..][j]).key != ParsePair(segs[0]).key
  {
    forall j | 0 <= j < |segs[1..]|
      ensures ParsePair(segs[1..][j]).key != ParsePair(segs[0]).key
    {
      assert segs[1..][j] == segs[j + 1];
    }
  }

  /** Dropping the first segment keeps segment `j` the last with its key. */
  lemma LaterKeysShift(segs: seq<string>, j: nat)
    requires 0 < j < |segs|
    requires forall j' :: j < j' < |segs| ==> ParsePair(segs[j']).key != ParsePair(segs[j]).key
    ensures forall j' :: j - 1 < j' < |segs[1..]| ==> ParsePair(segs[1..][j']).key != ParsePair(segs[1..][j - 1]).key
  {
    var rest := segs[1..];
    assert rest[j - 1] == segs[j];
    forall j' | j - 1 < j' < |rest|
      ensures ParsePair(rest[j']).key != ParsePair(rest[j - 1]).key
    {
      assert rest[j'] == segs[j' + 1];
    }
  }

  lemma {:induction false} FoldUntouched(m: map<string, string>, segs: seq<string>, k: string)
    requires k in m
    requires forall j :: 0 <= j < |segs| ==> ParsePair(segs[j]).key != k
    ensures k in FoldPairs(m, segs) && FoldPairs(m, segs)[k] == m[k]
    decreases |segs|
  {
    if |segs| > 0 {
      var e := ParsePair(segs[0]);
      forall j | 0 <= j < |segs[1..]|
        ensures ParsePair(segs[1..][j]).key != k
      {
        assert segs[1..][j] == segs[j + 1];
      }
      FoldUntouched(m[e.key := e.value], segs[1..], k);
    }
  }

  /** A blank input (empty or all spaces) parses to the empty map. */
  lemma ParseBlank(s: string)
    requires Blank(s)
    ensures ToMap(Parse(s)) == map[] && |Parse(s)| == 0
  {
  }

  /** The keys of a parse are exactly the decoded keys of its segments. */
  lemma ParseKeys(s: string, k: string)
    requires !Blank(s)
    ensures k in ToMap(Parse(s)) <==> k in SegmentKeys(Split(s, ';'))
  {
    AddAllMap([], Split(s, ';'));
    FoldKeys(map[], Split(s, ';'), k);
  }

  /** For a repeated key the last segment wins. */
  lemma ParseLastWins(s: string, j: nat)
    requires !Blank(s) && j < |Split(s, ';')|
    requires forall j' :: j < j' < |Split(s, ';')| ==>
               ParsePair(Split(s, ';')[j']).key != ParsePair(Split(s, ';')[j]).key
    ensures ParsePair(Split(s, ';')[j]).key in ToMap(Parse(s))
    ensures ToMap(Parse(s))[ParsePair(Split(s, ';')[j]).key] == ParsePair(Split(s, ';')[j]).value
  {
    AddAllMap([], Split(s, ';'));
    FoldLastWins(map[], Split(s, ';'), j);
  }

  /** A segment without `=` is a key with an empty value; otherwise the
      segment is cut at its first `=` and both halves are decoded. */
  lemma ParsePairCut(seg: string)
    ensures Lacks(seg, '=') ==> ParsePair(seg) == Entry(Decode(seg), "")
    ensures forall i :: 0 <= i < |seg| && seg[i] == '=' && Lacks(seg[..i], '=') ==>
              ParsePair(seg) == Entry(Decode(seg[..i]), Decode(seg[i + 1..]))
  {
    forall i | 0 <= i < |seg| && seg[i] == '=' && Lacks(seg[..i], '=')
      ensures ParsePair(seg) == Entry(Decode(seg[..i]), Decode(seg[i + 1..]))
    {
      IndexOfAt(seg, '=', i);
    }
  }

  /* The round trip parse(toString(m)) == m. */

  lemma EncodedLacks(s: string, c: char)
    requires IsSpecial(c)
    ensures Lacks(Encode(s), c)
  {
    EncodeOutputShape(s);
  }

  /** Cutting `a + "=" + b` at its first `=`, when `a` has none. */
  lemma CutAtEquals(a: string, b: string)
    requires Lacks(a, '=')
    ensures IndexOf(a + "=" + b, '=') == Some(|a|)
    ensures (a + "=" + b)[..|a|] == a && (a + "=" + b)[|a| + 1..] == b
  {
    var seg := a + "=" + b;
    assert seg[..|a|] == a;
    assert seg[|a| + 1..] == b;
    IndexOfAt(seg, '=', |a|);
  }

  /** Decoding a serialised entry gives the entry back. */
  lemma ParseEncodePair(e: Entry)
    ensures ParsePair(EncodePair(e)) == e
  {
    DecodeEncode(e.key);
    EncodedLacks(e.key, '=');
    if e.value == "" {
      assert ParsePair(Encode(e.key)) == Entry(Decode(Encode(e.key)), "");
    } else {
      DecodeEncode(e.value);
      CutAtEquals(Encode(e.key), Encode(e.value));
    }
  }

  lemma SegmentLacksSemicolon(e: Entry)
    ensures Lacks(EncodePair(e), ';')
  {
    EncodedLacks(e.key, ';');
    EncodedLacks(e.value, ';');
    if e.value != "" {
      LacksAppend(Encode(e.key), "=", ';');
      LacksAppend(Encode(e.key) + "=", Encode(e.value), ';');
    }
  }

  /** Inserting a key above every present key appends it. */
  lemma {:induction false} InsertAbove(ps: seq<Entry>, e: Entry)
    requires Ordered(ps)
    requires forall i :: 0 <= i < |ps| ==> Less(ps[i].key, e.key)
    ensures Insert(ps, e.key, e.value) == ps + [e]
    decreases |ps|
  {
    if |ps| > 0 {
      LessIrreflexive(e.key);
      LessAsymmetric(ps[0].key, e.key);
      OrderedTail(ps);
      assert forall i :: 0 <= i < |ps[1..]| ==> ps[1..][i] == ps[i + 1];
      InsertAbove(ps[1..], e);
      assert [ps[0]] + (ps[1..] + [e]) == ps + [e];
    }
  }

  /** Every key of `acc` is below every key of `rest`. */
  predicate Below(acc: seq<Entry>, rest: seq<Entry>) {
    forall i, j :: 0 <= i < |acc| && 0 <= j < |rest| ==> Less(acc[i].key, rest[j].key)
  }

  lemma BelowShift(acc: seq<Entry>, rest: seq<Entry>)
    requires |rest| > 0 && Ordered(rest) && Below(acc, rest)
    ensures Below(acc + [rest[0]], rest[1..])
  {
    var acc' := acc + [rest[0]];
    forall i, j | 0 <= i < |acc'| && 0 <= j < |rest[1..]|
      ensures Less(acc'[i].key, rest[1..][j].key)
    {
      assert rest[1..][j] == rest[j + 1];
      if i < |acc| {
        assert acc'[i] == acc[i];
      }
    }
  }

  /** `segs` parse, one by one, to the entries of `rest`. */
  predicate ParsesTo(segs: seq<string>, rest: seq<Entry>) {
    |segs| == |rest| && forall i :: 0 <= i < |segs| ==> ParsePair(segs[i]) == rest[i]
  }

  lemma ParsesToTail(segs: seq<string>, rest: seq<Entry>)
    requires ParsesTo(segs, rest) && |rest| > 0
    ensures ParsesTo(segs[1..], rest[1..]) && ParsePair(segs[0]) == rest[0]
  {
    forall i | 0 <= i < |segs[1..]| ensures ParsePair(segs[1..][i]) == rest[1..][i] {
      assert segs[1..][i] == segs[i + 1] && rest[1..][i] == rest[i + 1];
    }
  }

  /** One step of `AddAllAscending`: the first entry is appended to `acc`. */
  lemma AscendingStep(acc: seq<Entry>, segs: seq<string>, rest: seq<Entry>)
    requires Ordered(acc) && Ordered(rest) && Below(acc, rest)
    requires ParsesTo(segs, rest) && |rest| > 0
    ensures Ordered(acc + [rest[0]]) && Ordered(rest[1..]) && Below(acc + [rest[0]], rest[1..])
    ensures ParsesTo(segs[1..], rest[1..])
    ensures AddAll(acc, segs) == AddAll(acc + [rest[0]], segs[1..])
  {
    var e := rest[0];
    ParsesToTail(segs, rest);
    BelowShift(acc, rest);
    OrderedTail(rest);
    assert forall i :: 0 <= i < |acc| ==> Less(acc[i].key, rest[0].key);
    InsertAbove(acc, e);
  }

  lemma AppendNothing(acc: seq<Entry>, rest: seq<Entry>)
    requires |rest| == 0
    ensures acc + rest == acc
  {
  }

  lemma AppendShift(acc: seq<Entry>, rest: seq<Entry>)
    requires |rest| > 0
    ensures (acc + [rest[0]]) + rest[1..] == acc + rest
  {
    assert rest == [rest[0]] + rest[1..];
  }

  /** Segments that parse to ascending entries, all above `acc`, are
      appended to `acc` in order. */
  lemma {:induction false} AddAllAscending(acc: seq<Entry>, segs: seq<string>, rest: seq<Entry>)
    requires Ordered(acc) && Ordered(rest) && Below(acc, rest)
    requires ParsesTo(segs, rest)
    ensures AddAll(acc, segs) == acc + rest
    decreases |rest|
  {
    if |rest| == 0 {
      AppendNothing(acc, rest);
    } else {
      AscendingStep(acc, segs, rest);
      AddAllAscending(acc + [rest[0]], segs[1..], rest[1..]);
      AppendShift(acc, rest);
    }
  }

  /** `parse(toString(m))` gives `m` back, unless the serialisation is blank
      (for example a single entry whose key is all spaces and whose value is
      empty), in which case `parse` drops everything. */
  lemma ParseToString(ps: seq<Entry>)
    requires Ordered(ps)
    ensures !Blank(ToString(ps)) ==> Parse(ToString(ps)) == ps
    ensures Blank(ToString(ps)) ==> Parse(ToString(ps)) == []
  {
    if |ps| > 0 && !Blank(ToString(ps)) {
      var segs := Segments(ps);
      forall k | 0 <= k < |segs|
        ensures Lacks(segs[k], ';')
      {
        SegmentLacksSemicolon(ps[k]);
      }
      SplitJoin(segs, ';');
      forall i | 0 <= i < |segs| ensures ParsePair(segs[i]) == ps[i] {
        ParseEncodePair(ps[i]);
      }
      AddAllAscending([], segs, ps);
      assert [] + ps == ps;
    }
  }

  /** The exception is real: a lone empty or all-space key with an empty
      value does not survive the round trip. */
  lemma BlankKeyLost(key: string)
    requires Blank(key)
    ensures Parse(ToString([Entry(key, "")])) == []
  {
    var ps := [Entry(key, "")];
    EncodePlain(key);
    assert Segments(ps) == [key];
    assert ToString(ps) == key;
  }

  /** The entries of a non-empty map are written in ascending key order,
      one `;`-separated segment each, and a segment has an `=` exactly when
      its value is non-empty. */
  lemma ToStringLayout(ps: seq<Entry>)
    requires Ordered(ps) && |ps| > 0
    ensures Split(ToString(ps), ';') == Segments(ps)
    ensures forall i :: 0 <= i < |ps| ==> (Lacks(Split(ToString(ps), ';')[i], '=') <==> ps[i].value == "")
  {
    var segs := Segments(ps);
    forall k | 0 <= k < |segs|
      ensures Lacks(segs[k], ';')
    {
      SegmentLacksSemicolon(ps[k]);
    }
    SplitJoin(segs, ';');
    forall i | 0 <= i < |ps|
      ensures Lacks(segs[i], '=') <==> ps[i].value == ""
    {
      EncodedLacks(ps[i].key, '=');
      if ps[i].value != "" {
        assert segs[i][|Encode(ps[i].key)|] == '=';
      }
    }
  }
}
