/** Parsing what BuildString wrote gives the collection back, when the URL encoding removes
    the three characters the parser splits on and decoding undoes it. BuildString writes one
    key=value pair per value, key by key; the parser reads the pairs one at a time and adds
    each to its key, so the values of a key come together again. */
module QueryRoundTrip {
  import opened Errors
  import opened Text
  import opened QueryString

  /** One key=value pair of the serialised string: a key with one of its values. */
  type Pair = (Option<string>, Option<string>)

  /** An encoding the round trip survives: no '&', '=' or '?' in an encoded string (as
      WebUtility.UrlEncode escapes all three), and decoding undoes encoding. */
  ghost predicate UrlSafe(encode: string -> string, decode: string -> string) {
    forall x :: && decode(encode(x)) == x
                && '&' !in encode(x) && '=' !in encode(x) && '?' !in encode(x)
  }

  /** Collections whose every key is non-null and has at least one value, none of them null:
      the collections the round trip is stated for. */
  predicate Plain(entries: seq<Entry>) {
    forall k :: 0 <= k < |entries| ==>
      && entries[k].key.Some? && entries[k].values != []
      && forall j :: 0 <= j < |entries[k].values| ==> entries[k].values[j].Some?
  }

  /** The pairs of one key, one per value, in order. */
  function KeyPairs(key: Option<string>, values: seq<Option<string>>): (ps: seq<Pair>)
    ensures |ps| == |values|
  {
    seq(|values|, k requires 0 <= k < |values| => (key, values[k]))
  }

  /** The pairs of a collection, key by key. */
  function Pairs(entries: seq<Entry>): seq<Pair> {
    if entries == [] then []
    else Pairs(entries[..|entries| - 1]) + KeyPairs(entries[|entries| - 1].key, entries[|entries| - 1].values)
  }

  /** The text of one pair, as the inner loop of BuildString writes it. */
  function PairText(encode: string -> string, p: Pair): string {
    KeyPrefix(encode, p.0) + ValueText(encode, p.1)
  }

  /** The texts of the pairs, in order. */
  function PairTexts(encode: string -> string, ps: seq<Pair>): (texts: seq<string>)
    ensures |texts| == |ps|
  {
    if ps == [] then [] else [PairText(encode, ps[0])] + PairTexts(encode, ps[1..])
  }

  /** What adding the pairs one at a time, as the parser does, makes of `acc`. */
  function Adds(acc: seq<Entry>, ps: seq<Pair>): seq<Entry>
    decreases |ps|
  {
    if ps == [] then acc else Adds(AddValue(acc, ps[0].0, ps[0].1), ps[1..])
  }

  // ---------------------------------------------------------------------------
  // The serialised string is the pairs' texts joined by '&'

  lemma {:induction false} PairTextsAppend(encode: string -> string, a: seq<Pair>, b: seq<Pair>)
    ensures PairTexts(encode, a + b) == PairTexts(encode, a) + PairTexts(encode, b)
  {
    if a == [] {
      assert a + b == b;
    } else {
      assert (a + b)[0] == a[0];
      assert (a + b)[1..] == a[1..] + b;
      PairTextsAppend(encode, a[1..], b);
    }
  }

  /** Joining two non-empty lists puts one separator between their joins. */
  lemma {:induction false} JoinWithAppend(a: seq<string>, b: seq<string>, sep: char)
    requires a != [] && b != []
    ensures JoinWith(a + b, sep) == JoinWith(a, sep) + [sep] + JoinWith(b, sep)
  {
    if |a| == 1 {
      assert (a + b)[1..] == b;
    } else {
      assert (a + b)[1..] == a[1..] + b;
      JoinWithAppend(a[1..], b, sep);
    }
  }

  /** The pairs of a key end with the pair of its last value. */
  lemma {:induction false} KeyPairsSnoc(key: Option<string>, values: seq<Option<string>>)
    requires values != []
    ensures KeyPairs(key, values) == KeyPairs(key, values[..|values| - 1]) + [(key, values[|values| - 1])]
  {
    var init := values[..|values| - 1];
    assert forall k :: 0 <= k < |init| ==> KeyPairs(key, init)[k] == (key, values[k]);
  }

  /** The values of one key, written by the inner loop, are its pairs joined by '&'. */
  lemma {:induction false} ValuesTextJoins(encode: string -> string, key: Option<string>, values: seq<Option<string>>)
    requires values != []
    ensures ValuesText(encode, KeyPrefix(encode, key), values)
         == JoinWith(PairTexts(encode, KeyPairs(key, values)), '&')
  {
    var prefix := KeyPrefix(encode, key);
    if |values| == 1 {
      assert KeyPairs(key, values) == [(key, values[0])];
    } else {
      var init := values[..|values| - 1];
      var last := (key, values[|values| - 1]);
      ValuesTextJoins(encode, key, init);
      KeyPairsSnoc(key, values);
      PairTextsAppend(encode, KeyPairs(key, init), [last]);
      assert PairTexts(encode, [last]) == [PairText(encode, last)];
      JoinWithSnoc(PairTexts(encode, KeyPairs(key, init)), PairText(encode, last), '&');
    }
  }

  /** A pair under a non-null key writes at least the key's '='. */
  lemma {:induction false} PairTextsNonEmpty(encode: string -> string, ps: seq<Pair>)
    requires ps != [] && ps[0].0.Some?
    ensures JoinWith(PairTexts(encode, ps), '&') != ""
  {
    assert PairText(encode, ps[0])[|encode(ps[0].0.value)|] == '=';
    JoinWithEmpty(PairTexts(encode, ps), '&');
  }

  /** BuildString writes the pairs of the collection, joined by '&'. */
  lemma {:induction false} SerializePairs(encode: string -> string, entries: seq<Entry>)
    requires Plain(entries)
    ensures Serialize(encode, entries) == JoinWith(PairTexts(encode, Pairs(entries)), '&')
  {
    if entries != [] {
      var init := entries[..|entries| - 1];
      var e := entries[|entries| - 1];
      assert forall k :: 0 <= k < |init| ==> init[k] == entries[k];
      SerializePairs(encode, init);
      ValuesTextJoins(encode, e.key, e.values);
      var mine := KeyPairs(e.key, e.values);
      assert mine[0].0 == e.key;
      if init == [] {
        assert Pairs(entries) == mine;
      } else {
        var before := Pairs(init);
        assert before != [] by {
          assert Pairs(init) == Pairs(init[..|init| - 1]) + KeyPairs(init[|init| - 1].key, init[|init| - 1].values);
        }
        PairsFirstKey(init);
        PairTextsNonEmpty(encode, before);
        PairTextsAppend(encode, before, mine);
        JoinWithAppend(PairTexts(encode, before), PairTexts(encode, mine), '&');
      }
    }
  }

  /** The first pair of a non-empty collection is under its first key. */
  lemma {:induction false} PairsFirstKey(entries: seq<Entry>)
    requires Plain(entries) && entries != []
    ensures Pairs(entries) != [] && Pairs(entries)[0].0 == entries[0].key
  {
    var init := entries[..|entries| - 1];
    var e := entries[|entries| - 1];
    if init == [] {
      assert KeyPairs(e.key, e.values)[0].0 == e.key;
    } else {
      assert forall k :: 0 <= k < |init| ==> init[k] == entries[k];
      PairsFirstKey(init);
    }
  }

  // ---------------------------------------------------------------------------
  // Parsing the joined pairs adds them one at a time

  /** ParseFrom itself, the outer loop of Parse resumed at `index`, under a second name.
      It is not a second definition: the proofs below state their steps in terms of this
      resumption point, so that ParseFrom's body is unfolded only where a step needs it. */
  function ParseAt(s: string, index: nat, entries: seq<Entry>, decode: string -> string): Result<seq<Entry>>
    requires index <= |s| + 1
  {
    ParseFrom(s, index, entries, decode)
  }

  /** The text of a pair under a non-null key with a non-null value. */
  lemma {:induction false} PairTextOf(encode: string -> string, p: Pair)
    requires p.0.Some? && p.1.Some?
    ensures PairText(encode, p) == encode(p.0.value) + "=" + encode(p.1.value)
  {
  }

  /** The segment at `start` of a string continuing with `a=b`, then nothing or '&' and more,
      ends after `b` and splits into `a` and `b`. */
  lemma {:induction false} SegmentOfPair(s: string, start: nat, a: string, b: string, rest: string)
    requires start <= |s| && s[start..] == a + "=" + b + rest
    requires '&' !in a && '&' !in b && '=' !in a
    requires rest == [] || (|rest| > 1 && rest[0] == '&')
    ensures var end := start + |a| + 1 + |b|;
            && SegmentEnd(s, start) == end && SegmentPair(s, start, end) == (Some(a), b)
            && (end == |s| || end < |s| - 1)
  {
    var d := start + |a|;
    var end := d + 1 + |b|;
    var t := s[start..];
    assert |t| == |a| + 1 + |b| + |rest|;
    assert forall k :: 0 <= k < |t| ==> s[start + k] == t[k];
    assert forall k :: 0 <= k < |a| ==> t[k] == a[k];
    assert t[|a|] == '=';
    assert forall k :: 0 <= k < |b| ==> t[|a| + 1 + k] == b[k];
    assert rest != [] ==> t[|a| + 1 + |b|] == '&';
    SegmentScanned(s, start, end, d);
    assert s[start..d] == a;
    assert s[d + 1..end] == b;
  }

  /** One round of the parser over the segment `a=b` at `start`, followed by nothing or by
      '&' and a further segment: the pair is added (decoded), giving `added`, and parsing
      goes on at `next`, after the segment and its '&'. */
  lemma {:induction false} ParsePairStep(s: string, start: nat, a: string, b: string, rest: string,
                      acc: seq<Entry>, decode: string -> string, next: nat, added: seq<Entry>)
    requires start <= |s| && s[start..] == a + "=" + b + rest
    requires '&' !in a && '&' !in b && '=' !in a
    requires rest == [] || (|rest| > 1 && rest[0] == '&')
    requires |acc| < MaxKeyCount
    requires next == start + |a| + 1 + |b| + 1
    requires added == AddValue(acc, Some(decode(a)), Some(decode(b)))
    ensures next <= |s| + 1
    ensures ParseAt(s, start, acc, decode) == ParseAt(s, next, added, decode)
  {
    SegmentOfPair(s, start, a, b, rest);
    assert SegmentEntries(s, start, acc, decode) == added;
    assert ParseFrom(s, start, acc, decode) == ParseStep(s, start, acc, decode);
  }

  /** The last segment `a=b` ends the parse with its pair added, giving `added`. */
  lemma {:induction false} ParseLastPair(s: string, start: nat, a: string, b: string, acc: seq<Entry>,
                      decode: string -> string, added: seq<Entry>)
    requires start <= |s| && s[start..] == a + "=" + b
    requires '&' !in a && '&' !in b && '=' !in a
    requires |acc| < MaxKeyCount
    requires added == AddValue(acc, Some(decode(a)), Some(decode(b)))
    ensures ParseAt(s, start, acc, decode) == Ok(added)
  {
    assert s[start..] == a + "=" + b + [];
    ParsePairStep(s, start, a, b, [], acc, decode, |s| + 1, added);
  }

  /** After a segment `a=b` and its '&' comes the rest of the string. */
  lemma {:induction false} AfterPair(s: string, start: nat, a: string, b: string, more: string)
    requires start <= |s| && s[start..] == a + "=" + b + ("&" + more)
    ensures start + |a| + 1 + |b| + 1 <= |s| && s[start + |a| + 1 + |b| + 1..] == more
  {
    assert s[start + |a| + 1 + |b| + 1..] == s[start..][|a| + 1 + |b| + 1..];
  }

  /** What the encoding makes of a pair with a non-null key and value: two strings the parser
      splits correctly and decodes back. */
  lemma {:induction false} PairEncoding(encode: string -> string, decode: string -> string, p: Pair)
    requires UrlSafe(encode, decode) && p.0.Some? && p.1.Some?
    ensures var a := encode(p.0.value);
            var b := encode(p.1.value);
            && PairText(encode, p) == a + "=" + b
            && '&' !in a && '&' !in b && '=' !in a
            && Some(decode(a)) == p.0 && Some(decode(b)) == p.1
  {
  }

  /** The joined texts of `ps`: the first pair's text, then '&' and the rest's when there is more. */
  lemma {:induction false} JoinedPairs(encode: string -> string, ps: seq<Pair>)
    requires ps != []
    ensures JoinWith(PairTexts(encode, ps), '&')
         == if |ps| == 1 then PairText(encode, ps[0])
            else PairText(encode, ps[0]) + ("&" + JoinWith(PairTexts(encode, ps[1..]), '&'))
  {
    var texts := PairTexts(encode, ps);
    assert texts[0] == PairText(encode, ps[0]);
    assert texts[1..] == PairTexts(encode, ps[1..]);
    if |ps| > 1 {
      var t := PairText(encode, ps[0]);
      var more := JoinWith(PairTexts(encode, ps[1..]), '&');
      assert t + "&" + more == t + ("&" + more);
    }
  }

  /** The parser reads the only pair of the joined texts at `start`, written `a=b`, and stops
      at the end of the string with the pair added. */
  lemma {:induction false} OnlyPair(encode: string -> string, decode: string -> string, s: string, start: nat,
                                    ps: seq<Pair>, acc: seq<Entry>, a: string, b: string, added: seq<Entry>)
    requires |ps| == 1
    requires PairText(encode, ps[0]) == a + "=" + b && '&' !in a && '&' !in b && '=' !in a
    requires added == AddValue(acc, Some(decode(a)), Some(decode(b)))
    requires |acc| < MaxKeyCount
    requires start <= |s| && s[start..] == JoinWith(PairTexts(encode, ps), '&')
    ensures ParseAt(s, start, acc, decode) == Ok(added)
  {
    JoinedPairs(encode, ps);
    ParseLastPair(s, start, a, b, acc, decode, added);
  }

  /** The parser reads the first of several pairs of the joined texts at `start`, written
      `a=b`, and goes on at `next`, where the texts of the other pairs begin. */
  lemma {:induction false} FirstPair(encode: string -> string, decode: string -> string, s: string, start: nat,
                                     ps: seq<Pair>, acc: seq<Entry>, a: string, b: string,
                                     next: nat, added: seq<Entry>)
    requires |ps| > 1 && ps[1].0.Some?
    requires PairText(encode, ps[0]) == a + "=" + b && '&' !in a && '&' !in b && '=' !in a
    requires added == AddValue(acc, Some(decode(a)), Some(decode(b)))
    requires next == start + |a| + 1 + |b| + 1
    requires |acc| < MaxKeyCount
    requires start <= |s| && s[start..] == JoinWith(PairTexts(encode, ps), '&')
    ensures next <= |s| && s[next..] == JoinWith(PairTexts(encode, ps[1..]), '&')
    ensures ParseAt(s, start, acc, decode) == ParseAt(s, next, added, decode)
  {
    JoinedPairs(encode, ps);
    var more := JoinWith(PairTexts(encode, ps[1..]), '&');
    PairTextsNonEmpty(encode, ps[1..]);
    AfterPair(s, start, a, b, more);
    ParsePairStep(s, start, a, b, "&" + more, acc, decode, next, added);
  }

  /** Parsing the joined texts of the pairs from `start` on adds every pair, in order. */
  lemma {:induction false} ParseJoined(encode: string -> string, decode: string -> string,
                                       s: string, start: nat, ps: seq<Pair>, acc: seq<Entry>)
    requires UrlSafe(encode, decode) && DistinctKeys(acc)
    requires ps != [] && forall k :: 0 <= k < |ps| ==> ps[k].0.Some? && ps[k].1.Some?
    requires |acc| + |ps| <= MaxKeyCount
    requires start <= |s| && s[start..] == JoinWith(PairTexts(encode, ps), '&')
    ensures ParseAt(s, start, acc, decode) == Ok(Adds(acc, ps))
    decreases |ps|
  {
    var a := encode(ps[0].0.value);
    var b := encode(ps[0].1.value);
    PairEncoding(encode, decode, ps[0]);
    var added := AddValue(acc, ps[0].0, ps[0].1);
    AddValueKeys(acc, ps[0].0, ps[0].1);
    assert Adds(acc, ps) == Adds(added, ps[1..]);
    if |ps| == 1 {
      OnlyPair(encode, decode, s, start, ps, acc, a, b, added);
      assert ps[1..] == [];
    } else {
      var next := start + |a| + 1 + |b| + 1;
      FirstPair(encode, decode, s, start, ps, acc, a, b, next, added);
      ParseJoined(encode, decode, s, next, ps[1..], added);
    }
  }

  // ---------------------------------------------------------------------------
  // Adding the pairs of a collection in order builds the collection

  lemma {:induction false} AddsAppend(acc: seq<Entry>, a: seq<Pair>, b: seq<Pair>)
    ensures Adds(acc, a + b) == Adds(Adds(acc, a), b)
    decreases |a|
  {
    if a != [] {
      assert (a + b)[0] == a[0];
      assert (a + b)[1..] == a[1..] + b;
      AddsAppend(AddValue(acc, a[0].0, a[0].1), a[1..], b);
    } else {
      assert a + b == b;
    }
  }

  /** Adding a value under the last key of a collection with distinct keys appends it to
      that key's values. */
  lemma {:induction false} AddToLast(acc: seq<Entry>, v: Option<string>)
    requires DistinctKeys(acc) && acc != [] && v.Some?
    ensures var i := |acc| - 1;
            && AddValue(acc, acc[i].key, v) == acc[..i] + [acc[i].(values := acc[i].values + [v])]
            && DistinctKeys(AddValue(acc, acc[i].key, v))
  {
    var i := |acc| - 1;
    UniqueKey(acc, i, acc[i].key);
    AddValueKeys(acc, acc[i].key, v);
  }

  /** The pairs of a key: the pair of its first value, then the pairs of the others. */
  lemma {:induction false} KeyPairsTail(key: Option<string>, values: seq<Option<string>>)
    requires values != []
    ensures KeyPairs(key, values)[0] == (key, values[0])
    ensures KeyPairs(key, values)[1..] == KeyPairs(key, values[1..])
  {
  }

  /** Adding more values of the last key appends them to its values. */
  lemma {:induction false} AddsLastKey(acc: seq<Entry>, values: seq<Option<string>>)
    requires DistinctKeys(acc) && acc != []
    requires forall j :: 0 <= j < |values| ==> values[j].Some?
    ensures Adds(acc, KeyPairs(acc[|acc| - 1].key, values))
         == acc[..|acc| - 1] + [acc[|acc| - 1].(values := acc[|acc| - 1].values + values)]
    decreases |values|
  {
    var i := |acc| - 1;
    var last := acc[i];
    var ps := KeyPairs(last.key, values);
    if values == [] {
      assert ps == [];
      assert last.values + values == last.values;
      assert acc == acc[..i] + [last];
    } else {
      var next := AddValue(acc, last.key, values[0]);
      AddToLast(acc, values[0]);
      KeyPairsTail(last.key, values);
      assert Adds(acc, ps) == Adds(next, KeyPairs(last.key, values[1..]));
      AddsLastKey(next, values[1..]);
      assert next[..i] == acc[..i];
      assert last.values + [values[0]] + values[1..] == last.values + values;
    }
  }

  /** Adding a value under a key that is not yet present appends the key with that value. */
  lemma {:induction false} AddNewKey(acc: seq<Entry>, e: Entry, v: Option<string>)
    requires DistinctKeys(acc + [e]) && v.Some?
    ensures AddValue(acc, e.key, v) == acc + [Entry(e.key, [v])]
    ensures DistinctKeys(acc + [Entry(e.key, [v])])
  {
    assert forall k :: 0 <= k < |acc| ==> (acc + [e])[k] == acc[k];
    assert (acc + [e])[|acc|] == e;
    assert forall k :: 0 <= k < |acc| ==> !SameKey(acc[k].key, e.key);
    var first := acc + [Entry(e.key, [v])];
    assert forall k :: 0 <= k < |first| ==> first[k].key == (acc + [e])[k].key;
  }

  /** Adding the pairs of a key not yet present appends the key with its values. */
  lemma {:induction false} NewKeyPairs(acc: seq<Entry>, e: Entry)
    requires DistinctKeys(acc + [e]) && e.values != []
    requires forall j :: 0 <= j < |e.values| ==> e.values[j].Some?
    ensures Adds(acc, KeyPairs(e.key, e.values)) == acc + [e]
  {
    var ps := KeyPairs(e.key, e.values);
    var first := acc + [Entry(e.key, [e.values[0]])];
    AddNewKey(acc, e, e.values[0]);
    KeyPairsTail(e.key, e.values);
    assert Adds(acc, ps) == Adds(first, KeyPairs(e.key, e.values[1..]));
    AddsLastKey(first, e.values[1..]);
    assert first[..|acc|] == acc;
    assert [e.values[0]] + e.values[1..] == e.values;
  }

  /** A plain collection with distinct keys is its first keys, also plain with distinct
      keys, and its last key. */
  lemma {:induction false} PlainInit(entries: seq<Entry>)
    requires Plain(entries) && DistinctKeys(entries) && entries != []
    ensures var init := entries[..|entries| - 1];
            && Plain(init) && DistinctKeys(init) && init + [entries[|entries| - 1]] == entries
  {
    var init := entries[..|entries| - 1];
    assert forall k :: 0 <= k < |init| ==> init[k] == entries[k];
  }

  /** Adding the pairs of a collection with distinct keys, from nothing, gives it back. */
  lemma {:induction false} AddsPairs(entries: seq<Entry>)
    requires Plain(entries) && DistinctKeys(entries)
    ensures Adds([], Pairs(entries)) == entries
  {
    if entries != [] {
      var init := entries[..|entries| - 1];
      var e := entries[|entries| - 1];
      PlainInit(entries);
      AddsPairs(init);
      AddsAppend([], Pairs(init), KeyPairs(e.key, e.values));
      NewKeyPairs(init, e);
    }
  }

  /** Every pair of a plain collection has a non-null key and a non-null value. */
  lemma {:induction false} PairsArePlain(entries: seq<Entry>)
    requires Plain(entries)
    ensures forall k :: 0 <= k < |Pairs(entries)| ==> Pairs(entries)[k].0.Some? && Pairs(entries)[k].1.Some?
  {
    if entries != [] {
      var init := entries[..|entries| - 1];
      var e := entries[|entries| - 1];
      assert forall k :: 0 <= k < |init| ==> init[k] == entries[k];
      assert e.key.Some? && forall j :: 0 <= j < |e.values| ==> e.values[j].Some?;
      PairsArePlain(init);
      var before := Pairs(init);
      var mine := KeyPairs(e.key, e.values);
      var ps := Pairs(entries);
      assert ps == before + mine;
      forall k | 0 <= k < |ps| ensures ps[k].0.Some? && ps[k].1.Some? {
        if k < |before| {
          assert ps[k] == before[k];
        } else {
          var j := k - |before|;
          assert ps[k] == mine[j];
          assert mine[j] == (e.key, e.values[j]);
        }
      }
    }
  }

  /** Parse undoes BuildString for a collection of non-null keys, each with at least one
      non-null value, holding at most MaxKeyCount values in all. */
  lemma {:induction false} ParseSerialize(encode: string -> string, decode: string -> string, entries: seq<Entry>)
    requires UrlSafe(encode, decode)
    requires Plain(entries) && DistinctKeys(entries)
    requires |Pairs(entries)| <= MaxKeyCount
    ensures ParseQuery(Some(Serialize(encode, entries)), decode) == Ok(entries)
  {
    var s := Serialize(encode, entries);
    SerializePairs(encode, entries);
    if entries != [] {
      var ps := Pairs(entries);
      PairsFirstKey(entries);
      PairsArePlain(entries);
      var texts := PairTexts(encode, ps);
      PairTextOf(encode, ps[0]);
      assert texts[0] == PairText(encode, ps[0]);
      PairTextsNonEmpty(encode, ps);
      assert s[0] != '?' by {
        var a := encode(ps[0].0.value);
        if a == [] {
          assert s[..|texts[0]|] == texts[0];
          assert s[0] == '=';
        } else {
          assert s[..|texts[0]|] == texts[0];
          assert s[0] == a[0];
        }
      }
      ParseJoined(encode, decode, s, 0, ps, []);
      AddsPairs(entries);
    }
  }
}
