/** HttpValueCollection: the query-string collection of the URI builder. It is a
    NameValueCollection with a case-insensitive key comparer, a parser for query strings
    with a cap on the number of keys, and a serialiser whose result ToString caches until
    the next change. URL encoding and decoding (WebUtility) are parameters. */
module QueryString {
  import opened Errors
  import opened Text

  const MaxKeyCount: nat := 1000
  const MaxKeysMessage: string := "The number of keys in the collection has reached the maximum of 1000."

  // ---------------------------------------------------------------------------
  // The NameValueCollection underneath

  /** One key of the collection (None is the null key) with its values, oldest first.
      A value is None when it was stored by Set(name, null). */
  datatype Entry = Entry(key: Option<string>, values: seq<Option<string>>)

  /** A key as StringComparer.OrdinalIgnoreCase sees it: its case folding; null stays null. */
  function Folded(key: Option<string>): Option<string> {
    match key
    case None => None
    case Some(s) => Some(FoldString(s))
  }

  /** Key equality under the collection's comparer. */
  predicate SameKey(a: Option<string>, b: Option<string>) {
    Folded(a) == Folded(b)
  }

  /** Two non-null keys are the same exactly when they are equal ignoring case, and the
      null key is the same only as itself. */
  lemma SameKeyIgnoresCase(a: Option<string>, b: Option<string>)
    ensures a.Some? && b.Some? ==> (SameKey(a, b) <==> EqualsIgnoreCase(a.value, b.value))
    ensures a.None? ==> (SameKey(a, b) <==> b.None?)
  {
    if a.Some? && b.Some? {
      EqualsIgnoreCaseFold(a.value, b.value);
    }
  }

  /** The collection keeps one entry per key. */
  predicate DistinctKeys(entries: seq<Entry>) {
    forall i, j :: 0 <= i < j < |entries| ==> !SameKey(entries[i].key, entries[j].key)
  }

  /** The position of the entry for `name`, or -1. */
  function FindKey(entries: seq<Entry>, name: Option<string>): (r: int)
    ensures -1 <= r < |entries|
    ensures r >= 0 ==> SameKey(entries[r].key, name)
    ensures r == -1 ==> forall k :: 0 <= k < |entries| ==> !SameKey(entries[k].key, name)
  {
    FindKeyBefore(entries, name, |entries|)
  }

  /** The search for `name` among the first `end` entries, from the back. */
  function FindKeyBefore(entries: seq<Entry>, name: Option<string>, end: nat): (r: int)
    requires end <= |entries|
    ensures -1 <= r < end
    ensures r >= 0 ==> SameKey(entries[r].key, name)
    ensures r == -1 ==> forall k :: 0 <= k < end ==> !SameKey(entries[k].key, name)
    decreases end, 1
  {
    if end == 0 then -1 else FindKeyAt(entries, name, end)
  }

  /** The search at entry `end - 1`: either that entry or one before it. */
  function FindKeyAt(entries: seq<Entry>, name: Option<string>, end: nat): (r: int)
    requires 0 < end <= |entries|
    ensures -1 <= r < end
    ensures r >= 0 ==> SameKey(entries[r].key, name)
    ensures r == -1 ==> forall k :: 0 <= k < end ==> !SameKey(entries[k].key, name)
    decreases end, 0
  {
    if SameKey(entries[end - 1].key, name) then end - 1 else FindKeyBefore(entries, name, end - 1)
  }

  /** NameValueCollection.GetValues(name) before conversion to an array: the values
      stored for `name`, none when the key is absent. */
  function ValuesOf(entries: seq<Entry>, name: Option<string>): seq<Option<string>> {
    var i := FindKey(entries, name);
    if i == -1 then [] else entries[i].values
  }

  /** NameValueCollection.Add: a new key goes last; a known key (in any letter case)
      keeps its place and spelling and gets the value appended. A null value is not
      stored, though a new key is still created for it. */
  function AddValue(entries: seq<Entry>, name: Option<string>, value: Option<string>): seq<Entry> {
    var i := FindKey(entries, name);
    var added := if value.Some? then [value] else [];
    if i == -1 then entries + [Entry(name, added)]
    else entries[i := entries[i].(values := entries[i].values + added)]
  }

  /** NameValueCollection.Set: the values of the key become exactly [value], null included. */
  function SetValue(entries: seq<Entry>, name: Option<string>, value: Option<string>): seq<Entry> {
    var i := FindKey(entries, name);
    if i == -1 then entries + [Entry(name, [value])]
    else entries[i := entries[i].(values := [value])]
  }

  /** NameValueCollection.Remove: the key and all its values go. */
  function RemoveKey(entries: seq<Entry>, name: Option<string>): seq<Entry> {
    var i := FindKey(entries, name);
    if i == -1 then entries else entries[..i] + entries[i + 1..]
  }

  /** Adding keeps the keys distinct and in their order, and creates a key (the last
      one) only when none matched. */
  lemma AddValueKeys(entries: seq<Entry>, name: Option<string>, value: Option<string>)
    requires DistinctKeys(entries)
    ensures var r := AddValue(entries, name, value);
            && DistinctKeys(r)
            && |r| == |entries| + (if FindKey(entries, name) == -1 then 1 else 0)
            && (forall k :: 0 <= k < |entries| ==> r[k].key == entries[k].key)
            && (FindKey(entries, name) == -1 ==> r[|entries|].key == name)
  {
    var r := AddValue(entries, name, value);
    var i := FindKey(entries, name);
    if i == -1 {
      KeysAfterAppend(entries, r, name);
    } else {
      KeysAfterUpdate(entries, r, name, i);
    }
  }

  /** Adding appends the value (unless null) to the values of its key, in whatever case
      the key was first written, and leaves every other key alone. */
  lemma AddValueLookup(entries: seq<Entry>, name: Option<string>, value: Option<string>, other: Option<string>)
    requires DistinctKeys(entries)
    ensures var r := AddValue(entries, name, value);
            && ValuesOf(r, name) == ValuesOf(entries, name) + (if value.Some? then [value] else [])
            && (!SameKey(other, name) ==> ValuesOf(r, other) == ValuesOf(entries, other))
  {
    var r := AddValue(entries, name, value);
    var i := FindKey(entries, name);
    AddValueKeys(entries, name, value);
    FindAfterUpdate(entries, r, name, i, name);
    FindAfterUpdate(entries, r, name, i, other);
  }

  /** Setting makes [value] the only value of its key and leaves every other key alone. */
  lemma SetValueSpec(entries: seq<Entry>, name: Option<string>, value: Option<string>, other: Option<string>)
    requires DistinctKeys(entries)
    ensures var r := SetValue(entries, name, value);
            && DistinctKeys(r)
            && ValuesOf(r, name) == [value]
            && (!SameKey(other, name) ==> ValuesOf(r, other) == ValuesOf(entries, other))
  {
    var r := SetValue(entries, name, value);
    var i := FindKey(entries, name);
    if i == -1 {
      KeysAfterAppend(entries, r, name);
    } else {
      KeysAfterUpdate(entries, r, name, i);
    }
    FindAfterUpdate(entries, r, name, i, name);
    FindAfterUpdate(entries, r, name, i, other);
  }

  /** Dropping the entry at `i` shifts every later entry down by one. */
  lemma RemoveAt(entries: seq<Entry>, i: nat)
    requires i < |entries|
    ensures var r := entries[..i] + entries[i + 1..];
            |r| == |entries| - 1 && forall k :: 0 <= k < |r| ==> r[k] == entries[if k < i then k else k + 1]
  {
  }

  /** Removing keeps the keys distinct, leaves no entry for the key, and one key fewer
      when the key was there. */
  lemma RemoveKeyKeys(entries: seq<Entry>, name: Option<string>)
    requires DistinctKeys(entries)
    ensures var r := RemoveKey(entries, name);
            && DistinctKeys(r)
            && FindKey(r, name) == -1
            && |r| == |entries| - (if FindKey(entries, name) == -1 then 0 else 1)
  {
    var i := FindKey(entries, name);
    if i != -1 {
      RemoveAtDistinct(entries, i);
    }
  }

  /** Dropping any one entry keeps the keys distinct. */
  lemma RemoveAtDistinct(entries: seq<Entry>, i: nat)
    requires DistinctKeys(entries) && i < |entries|
    ensures DistinctKeys(entries[..i] + entries[i + 1..])
  {
    var r := entries[..i] + entries[i + 1..];
    RemoveAt(entries, i);
    forall a, b | 0 <= a < b < |r|
      ensures !SameKey(r[a].key, r[b].key)
    {
      assert r[a] == entries[if a < i then a else a + 1];
      assert r[b] == entries[if b < i then b else b + 1];
    }
  }

  /** Dropping an entry whose key is not `other` leaves the values of `other` alone. */
  lemma RemovedOther(entries: seq<Entry>, i: nat, other: Option<string>)
    requires DistinctKeys(entries) && i < |entries| && !SameKey(entries[i].key, other)
    ensures ValuesOf(entries[..i] + entries[i + 1..], other) == ValuesOf(entries, other)
  {
    var r := entries[..i] + entries[i + 1..];
    var f := FindKey(entries, other);
    RemoveAt(entries, i);
    RemoveAtDistinct(entries, i);
    if f != -1 {
      var h := if f < i then f else f - 1;
      assert r[h] == entries[f];
      UniqueKey(r, h, other);
    } else {
      assert forall k :: 0 <= k < |r| ==> !SameKey(r[k].key, other);
    }
  }

  /** Removing leaves no value for the key and every other key as it was. */
  lemma RemoveKeyLookup(entries: seq<Entry>, name: Option<string>, other: Option<string>)
    requires DistinctKeys(entries)
    ensures var r := RemoveKey(entries, name);
            && ValuesOf(r, name) == []
            && (!SameKey(other, name) ==> ValuesOf(r, other) == ValuesOf(entries, other))
  {
    var i := FindKey(entries, name);
    RemoveKeyKeys(entries, name);
    if i != -1 && !SameKey(other, name) {
      RemovedOther(entries, i, other);
    }
  }

  /** In a collection with distinct keys, the entry matching a key is the one FindKey gives. */
  lemma UniqueKey(entries: seq<Entry>, k: nat, name: Option<string>)
    requires DistinctKeys(entries) && k < |entries| && SameKey(entries[k].key, name)
    ensures FindKey(entries, name) == k
  {
  }

  /** Appending an entry for a key not yet present keeps the keys distinct. */
  lemma KeysAfterAppend(entries: seq<Entry>, r: seq<Entry>, name: Option<string>)
    requires DistinctKeys(entries) && FindKey(entries, name) == -1
    requires |r| == |entries| + 1 && r[..|entries|] == entries && r[|entries|].key == name
    ensures DistinctKeys(r)
  {
    assert forall k :: 0 <= k < |entries| ==> r[k] == entries[k];
  }

  /** Giving an entry new values keeps the keys distinct. */
  lemma KeysAfterUpdate(entries: seq<Entry>, r: seq<Entry>, name: Option<string>, i: int)
    requires DistinctKeys(entries)
    requires |r| == |entries| && forall k :: 0 <= k < |r| ==> r[k].key == entries[k].key
    ensures DistinctKeys(r)
  {
  }

  /** Giving entry `i`, the entry of `name`, new values, or appending a new entry for
      `name` when `i` is -1, keeps every lookup where it was. */
  lemma FindAfterUpdate(entries: seq<Entry>, r: seq<Entry>, name: Option<string>, i: int, other: Option<string>)
    requires DistinctKeys(entries) && DistinctKeys(r) && i == FindKey(entries, name)
    requires i == -1 ==> |r| == |entries| + 1 && r[|entries|].key == name && forall k :: 0 <= k < |entries| ==> r[k] == entries[k]
    requires i != -1 ==> |r| == |entries| && forall k :: 0 <= k < |r| ==> r[k].key == entries[k].key
    ensures SameKey(other, name) ==> FindKey(r, other) == (if i == -1 then |entries| else i)
    ensures !SameKey(other, name) ==> FindKey(r, other) == FindKey(entries, other)
  {
    var p := if i == -1 then |entries| else i;
    if SameKey(other, name) {
      UniqueKey(r, p, other);
    } else {
      var f := FindKey(entries, other);
      if f != -1 {
        UniqueKey(r, f, other);
      }
    }
  }

  // ---------------------------------------------------------------------------
  // BuildString

  /** The private UrlEncode: WebUtility.UrlEncode (the parameter `encode`) on a non-null
      string; null stays null. */
  function Encoded(encode: string -> string, s: Option<string>): Option<string> {
    match s
    case None => None
    case Some(x) => Some(encode(x))
  }

  /** What goes before each value of a key: nothing for the null key, else the encoded key
      and '='. */
  function KeyPrefix(encode: string -> string, key: Option<string>): string {
    match Encoded(encode, key)
    case None => ""
    case Some(k) => k + "="
  }

  /** The encoded value as StringBuilder.Append writes it: a null value writes nothing. */
  function ValueText(encode: string -> string, value: Option<string>): string {
    match Encoded(encode, value)
    case None => ""
    case Some(v) => v
  }

  /** The pairs `prefix` + value of one key, joined by '&', as the inner loop writes them. */
  function ValuesText(encode: string -> string, prefix: string, values: seq<Option<string>>): string
    requires values != []
  {
    if |values| == 1 then prefix + ValueText(encode, values[0])
    else ValuesText(encode, prefix, values[..|values| - 1]) + "&" + prefix + ValueText(encode, values[|values| - 1])
  }

  /** The text of one key: its prefix alone when it has no values, else one pair per value. */
  function EntryText(encode: string -> string, e: Entry): string {
    var prefix := KeyPrefix(encode, e.key);
    if e.values == [] then prefix
    else ValuesText(encode, prefix, e.values)
  }

  /** The string BuildString returns: the entries' texts in order, each after a '&' unless
      nothing has been written yet. */
  function Serialize(encode: string -> string, entries: seq<Entry>): string {
    if entries == [] then ""
    else
      var before := Serialize(encode, entries[..|entries| - 1]);
      before + (if before == "" then "" else "&") + EntryText(encode, entries[|entries| - 1])
  }

  /** The per-entry texts, one for each key. */
  function Texts(encode: string -> string, entries: seq<Entry>): (texts: seq<string>)
    ensures |texts| == |entries|
  {
    seq(|entries|, k requires 0 <= k < |entries| => EntryText(encode, entries[k]))
  }

  /** When no entry's text is empty (every key non-null, or every value non-empty), the
      string is the entries' texts joined by '&'. */
  lemma {:induction false} SerializeJoins(encode: string -> string, entries: seq<Entry>)
    requires forall k :: 0 <= k < |entries| ==> EntryText(encode, entries[k]) != ""
    ensures Serialize(encode, entries) == JoinWith(Texts(encode, entries), '&')
  {
    if entries != [] {
      var init := entries[..|entries| - 1];
      var last := EntryText(encode, entries[|entries| - 1]);
      assert forall k :: 0 <= k < |init| ==> init[k] == entries[k];
      SerializeJoins(encode, init);
      var texts := Texts(encode, init);
      TextsSnoc(encode, entries);
      if init != [] {
        assert texts[0] == EntryText(encode, entries[0]);
        JoinWithSnoc(texts, last, '&');
        JoinWithEmpty(texts, '&');
      }
    }
  }

  /** The texts of the entries are the texts of all but the last, then the last one's. */
  lemma TextsSnoc(encode: string -> string, entries: seq<Entry>)
    requires entries != []
    ensures Texts(encode, entries)
         == Texts(encode, entries[..|entries| - 1]) + [EntryText(encode, entries[|entries| - 1])]
  {
    var init := entries[..|entries| - 1];
    var a := Texts(encode, entries);
    var b := Texts(encode, init) + [EntryText(encode, entries[|entries| - 1])];
    assert |a| == |b|;
    forall k | 0 <= k < |a| ensures a[k] == b[k] {
      if k < |init| {
        assert init[k] == entries[k];
      }
    }
  }

  /** A joined sequence of strings is empty only when its first part is. */
  lemma JoinWithEmpty(parts: seq<string>, sep: char)
    requires parts != [] && parts[0] != ""
    ensures JoinWith(parts, sep) != ""
  {
    assert JoinWith(parts, sep)[..|parts[0]|] == parts[0];
  }

  /** The serialised text of a single key with a single value: key=value, encoded. */
  lemma SerializeOnePair(encode: string -> string, key: string, value: string)
    ensures Serialize(encode, [Entry(Some(key), [Some(value)])]) == encode(key) + "=" + encode(value)
  {
    assert [Entry(Some(key), [Some(value)])][..0] == [];
  }

  /** A key without values is written as key=, and the null key with a value as the bare
      encoded value. */
  lemma SerializeBareForms(encode: string -> string, key: string, value: string)
    ensures Serialize(encode, [Entry(Some(key), [])]) == encode(key) + "="
    ensures Serialize(encode, [Entry(None, [Some(value)])]) == encode(value)
  {
    assert [Entry(Some(key), [])][..0] == [];
    assert [Entry(None, [Some(value)])][..0] == [];
  }

  /** An entry writing nothing at the front leaves no trace: no '&' is written for it
      before the next key. Parse stores such an entry for the empty segment in front of
      "&a=b" (the null key with the value ""), when the encoding writes "" as "". */
  lemma {:induction false} EmptyFirstEntryVanishes(encode: string -> string, e: Entry, rest: seq<Entry>)
    requires EntryText(encode, e) == ""
    ensures Serialize(encode, [e] + rest) == Serialize(encode, rest)
  {
    if rest == [] {
      assert ([e] + rest)[..0] == [];
    } else {
      var init := rest[..|rest| - 1];
      assert ([e] + rest)[..|rest|] == [e] + init;
      EmptyFirstEntryVanishes(encode, e, init);
    }
  }

  /** After non-empty output, an entry writing nothing still gets its '&': it leaves a
      lone separator at the end. */
  lemma EmptyLaterEntryLeavesSeparator(encode: string -> string, entries: seq<Entry>, e: Entry)
    requires Serialize(encode, entries) != "" && EntryText(encode, e) == ""
    ensures Serialize(encode, entries + [e]) == Serialize(encode, entries) + "&"
  {
    assert (entries + [e])[..|entries|] == entries;
  }

  // ---------------------------------------------------------------------------
  // Parse

  /** The private UrlDecode: WebUtility.UrlDecode (the parameter `decode`) on a non-null
      string; null stays null. */
  function Decoded(decode: string -> string, s: Option<string>): Option<string> {
    match s
    case None => None
    case Some(x) => Some(decode(x))
  }

  /** Where the segment starting at `start` ends: at the next '&', or at the end. */
  function SegmentEnd(s: string, start: nat): (r: nat)
    requires start <= |s|
    ensures start <= r <= |s|
  {
    var i := IndexOf(s, '&', start);
    if i == -1 then |s| else i
  }

  /** The first '=' of the segment [start, end), or -1. */
  function Delimiter(s: string, start: nat, end: nat): (r: int)
    requires start <= end <= |s|
    ensures r == -1 || start <= r < end
  {
    var i := IndexOf(s, '=', start);
    if i != -1 && i < end then i else -1
  }

  /** The name (null without a '=') and the value of the segment [start, end). */
  function SegmentPair(s: string, start: nat, end: nat): (Option<string>, string)
    requires start <= end <= |s|
  {
    var d := Delimiter(s, start, end);
    if d > -1 then (Some(s[start..d]), s[d + 1..end]) else (None, s[start..end])
  }

  /** The outer loop of Parse from `index` on, with the keys gathered so far. */
  function ParseFrom(s: string, index: nat, entries: seq<Entry>, decode: string -> string): Result<seq<Entry>>
    requires index <= |s| + 1
    decreases |s| + 1 - index, 1
  {
    if index >= |s| then Ok(entries) else ParseStep(s, index, entries, decode)
  }

  /** One round of the outer loop: the key cap, one segment, and the null key with an
      empty value when the segment ends in the string's last character, a '&'. */
  function ParseStep(s: string, index: nat, entries: seq<Entry>, decode: string -> string): Result<seq<Entry>>
    requires index < |s|
    decreases |s| + 1 - index, 0
  {
    if |entries| >= MaxKeyCount then Err(InvalidOperation(MaxKeysMessage))
    else ParseFrom(s, SegmentEnd(s, index) + 1, SegmentEntries(s, index, entries, decode), decode)
  }

  /** The keys after the segment at `index`: its name and value added, then the null key
      with an empty value when the segment ends in the string's last character, a '&'. */
  function SegmentEntries(s: string, index: nat, entries: seq<Entry>, decode: string -> string): seq<Entry>
    requires index < |s|
  {
    var end := SegmentEnd(s, index);
    var pair := SegmentPair(s, index, end);
    var added := AddValue(entries, Decoded(decode, pair.0), Some(decode(pair.1)));
    if end == |s| - 1 && s[end] == '&' then AddValue(added, None, Some("")) else added
  }

  /** HttpValueCollection.Parse: a null string is an argument error, the empty string gives
      no keys, and a leading '?' is skipped. */
  function ParseQuery(str: Option<string>, decode: string -> string): Result<seq<Entry>> {
    match str
    case None => Err(ArgumentNull("str"))
    case Some(s) =>
      if |s| == 0 then Ok([])
      else ParseFrom(s, if s[0] == '?' then 1 else 0, [], decode)
  }

  /** Parsing stops with an error only for a null string or at the key cap. */
  lemma ParseErrors(str: Option<string>, decode: string -> string)
    ensures str.None? ==> ParseQuery(str, decode) == Err(ArgumentNull("str"))
    ensures str.Some? && ParseQuery(str, decode).Err? ==> ParseQuery(str, decode).error == InvalidOperation(MaxKeysMessage)
  {
    if str.Some? && |str.value| > 0 {
      ParseFromErrors(str.value, if str.value[0] == '?' then 1 else 0, [], decode);
    }
  }

  lemma {:induction false} ParseFromErrors(s: string, index: nat, entries: seq<Entry>, decode: string -> string)
    requires index <= |s| + 1
    ensures ParseFrom(s, index, entries, decode).Err? ==> ParseFrom(s, index, entries, decode).error == InvalidOperation(MaxKeysMessage)
    decreases |s| + 1 - index
  {
    if index < |s| && |entries| < MaxKeyCount {
      ParseStepContinues(s, index, entries, decode);
      ParseFromErrors(s, SegmentEnd(s, index) + 1, SegmentEntries(s, index, entries, decode), decode);
    }
  }

  /** A segment keeps the keys distinct and adds at most one key, or two when it ends in
      the string's last character, a '&'. */
  lemma SegmentKeys(s: string, index: nat, entries: seq<Entry>, decode: string -> string)
    requires index < |s| && DistinctKeys(entries)
    ensures var r := SegmentEntries(s, index, entries, decode);
            && DistinctKeys(r)
            && |r| <= |entries| + (if SegmentEnd(s, index) + 1 >= |s| then 2 else 1)
  {
    var end := SegmentEnd(s, index);
    var pair := SegmentPair(s, index, end);
    var added := AddValue(entries, Decoded(decode, pair.0), Some(decode(pair.1)));
    AddValueKeys(entries, Decoded(decode, pair.0), Some(decode(pair.1)));
    AddValueKeys(added, None, Some(""));
  }

  /** A parsed collection has one entry per key. */
  lemma ParseKeepsKeysDistinct(str: Option<string>, decode: string -> string)
    ensures ParseQuery(str, decode).Ok? ==> DistinctKeys(ParseQuery(str, decode).value)
  {
    if str.Some? && |str.value| > 0 {
      ParseFromDistinct(str.value, if str.value[0] == '?' then 1 else 0, [], decode);
    }
  }

  lemma {:induction false} ParseFromDistinct(s: string, index: nat, entries: seq<Entry>, decode: string -> string)
    requires index <= |s| + 1 && DistinctKeys(entries)
    ensures ParseFrom(s, index, entries, decode).Ok? ==> DistinctKeys(ParseFrom(s, index, entries, decode).value)
    decreases |s| + 1 - index
  {
    if index < |s| && |entries| < MaxKeyCount {
      ParseStepContinues(s, index, entries, decode);
      SegmentKeys(s, index, entries, decode);
      ParseFromDistinct(s, SegmentEnd(s, index) + 1, SegmentEntries(s, index, entries, decode), decode);
    }
  }

  /** The cap is checked before each segment but not before the extra key of a trailing
      '&', so a parsed collection holds at most one key more than the cap. */
  lemma ParseKeyBound(str: Option<string>, decode: string -> string)
    ensures ParseQuery(str, decode).Ok? ==> |ParseQuery(str, decode).value| <= MaxKeyCount + 1
  {
    if str.Some? && |str.value| > 0 {
      ParseFromBound(str.value, if str.value[0] == '?' then 1 else 0, [], decode);
    }
  }

  lemma {:induction false} ParseFromBound(s: string, index: nat, entries: seq<Entry>, decode: string -> string)
    requires index <= |s| + 1 && DistinctKeys(entries)
    requires |entries| <= MaxKeyCount || index >= |s|
    requires |entries| <= MaxKeyCount + 1
    ensures ParseFrom(s, index, entries, decode).Ok? ==> |ParseFrom(s, index, entries, decode).value| <= MaxKeyCount + 1
    decreases |s| + 1 - index
  {
    if index < |s| && |entries| < MaxKeyCount {
      ParseStepContinues(s, index, entries, decode);
      SegmentKeys(s, index, entries, decode);
      ParseFromBound(s, SegmentEnd(s, index) + 1, SegmentEntries(s, index, entries, decode), decode);
    }
  }

  /** The name and value of a whole segment: the text before the first '=' (null when
      there is none) and the text after it. */
  function PlainPair(s: string): (Option<string>, string) {
    var d := IndexOf(s, '=', 0);
    if d == -1 then (None, s) else (Some(s[..d]), s[d + 1..])
  }

  /** A string without '&', alone or followed by one '&', is a single first segment. */
  lemma FirstSegment(s: string, t: string)
    requires '&' !in s && (t == s || t == s + "&")
    ensures SegmentEnd(t, 0) == |s| && SegmentPair(t, 0, |s|) == PlainPair(s)
  {
    IndexOfFinds(t, '&', 0);
    assert forall k :: 0 <= k < |s| ==> t[k] == s[k];
    assert t != s ==> t[|s|] == '&';
    IndexOfFinds(s, '=', 0);
    IndexOfFinds(t, '=', 0);
    var d := IndexOf(s, '=', 0);
    assert t[..|s|] == s;
    if d != -1 {
      assert IndexOf(t, '=', 0) == d;
      assert t[0..d] == s[..d] by { assert t[..|s|][..d] == t[..d]; }
      assert t[d + 1..|s|] == s[d + 1..] by { assert t[..|s|][d + 1..] == t[d + 1..|s|]; }
    } else {
      assert Delimiter(t, 0, |s|) == -1;
      assert t[0..|s|] == s;
    }
  }

  /** A string without '&' (and without a leading '?') is one key: the text before
      the first '=' (null without one) with the rest as its only value. */
  lemma ParseOneSegment(s: string, decode: string -> string)
    requires s != [] && s[0] != '?' && '&' !in s
    ensures var pair := PlainPair(s);
            ParseQuery(Some(s), decode) == Ok([Entry(Decoded(decode, pair.0), [Some(decode(pair.1))])])
  {
    FirstSegment(s, s);
    var pair := PlainPair(s);
    var added := AddValue([], Decoded(decode, pair.0), Some(decode(pair.1)));
    assert added == [Entry(Decoded(decode, pair.0), [Some(decode(pair.1))])];
    assert ParseStep(s, 0, [], decode) == ParseFrom(s, |s| + 1, added, decode);
    assert ParseFrom(s, 0, [], decode) == ParseStep(s, 0, [], decode);
  }

  /** A trailing '&' adds the null key with an empty value: after a segment without '=',
      whose key is null too, that becomes a second value of the same key. */
  lemma ParseTrailingSeparator(s: string, decode: string -> string)
    requires s != [] && s[0] != '?' && '&' !in s
    ensures var pair := PlainPair(s);
            var value := Some(decode(pair.1));
            ParseQuery(Some(s + "&"), decode) ==
              Ok(if pair.0.None? then [Entry(None, [value, Some("")])]
                 else [Entry(Decoded(decode, pair.0), [value]), Entry(None, [Some("")])])
  {
    var t := s + "&";
    FirstSegment(s, t);
    var pair := PlainPair(s);
    var name := Decoded(decode, pair.0);
    var added := AddValue([], name, Some(decode(pair.1)));
    assert added == [Entry(name, [Some(decode(pair.1))])];
    var next := AddValue(added, None, Some(""));
    if pair.0.None? {
      UniqueKey(added, 0, None);
      assert next == [added[0].(values := added[0].values + [Some("")])];
      assert added[0].values + [Some("")] == [Some(decode(pair.1)), Some("")];
      assert next == [Entry(None, [Some(decode(pair.1)), Some("")])];
    } else {
      assert !SameKey(added[0].key, None);
      assert next == [Entry(name, [Some(decode(pair.1))]), Entry(None, [Some("")])];
    }
    assert ParseFrom(t, |s| + 1, next, decode) == Ok(next);
    assert t[|s|] == '&' && t[0] == s[0];
    assert ParseStep(t, 0, [], decode) == ParseFrom(t, |s| + 1, next, decode);
    assert ParseFrom(t, 0, [], decode) == ParseStep(t, 0, [], decode);
  }

  // ---------------------------------------------------------------------------
  // The collection object

  /** Where the inner loop of Parse stops and what it saw: it ends on the segment's
      end, and its delimiter is the segment's first '='. */
  lemma SegmentScanned(s: string, start: nat, index: nat, delimiter: int)
    requires start <= index <= |s| && (index == |s| || s[index] == '&')
    requires forall k :: start <= k < index ==> s[k] != '&'
    requires delimiter == -1 ==> forall k :: start <= k < index ==> s[k] != '='
    requires delimiter != -1 ==> start <= delimiter < index && s[delimiter] == '=' && forall k :: start <= k < delimiter ==> s[k] != '='
    ensures SegmentEnd(s, start) == index && Delimiter(s, start, index) == delimiter
  {
    IndexOfFinds(s, '&', start);
    IndexOfFinds(s, '=', start);
  }

  /** One round of BuildString's outer loop after the separator: the prefix alone for a
      key without values, else one pair per value, joined by '&'. */
  method AppendEntry(encode: string -> string, builder: string, e: Entry) returns (r: string)
    ensures r == builder + EntryText(encode, e)
  {
    var key := Encoded(encode, e.key);
    var keyPrefix := if key.None? then "" else key.value + "=";
    var values := e.values;
    r := builder;
    if |values| == 0 {
      r := r + keyPrefix;
    } else if |values| == 1 {
      r := r + keyPrefix;
      r := r + ValueText(encode, values[0]);
    } else {
      r := AppendValues(encode, r, keyPrefix, values);
    }
  }

  /** BuildString's inner loop for a key with several values: prefix and value for each,
      '&' between them. */
  method AppendValues(encode: string -> string, builder: string, keyPrefix: string, values: seq<Option<string>>)
    returns (r: string)
    requires values != []
    ensures r == builder + ValuesText(encode, keyPrefix, values)
  {
    r := builder;
    for j := 0 to |values|
      invariant r == builder + (if j == 0 then "" else ValuesText(encode, keyPrefix, values[..j]))
    {
      ValuesTextStep(encode, keyPrefix, values, j);
      if j != 0 {
        r := r + "&";
      }
      r := r + keyPrefix;
      r := r + ValueText(encode, values[j]);
    }
    assert values[..|values|] == values;
  }

  /** The pairs of one more value. */
  lemma ValuesTextStep(encode: string -> string, prefix: string, values: seq<Option<string>>, j: nat)
    requires j < |values|
    ensures ValuesText(encode, prefix, values[..j + 1])
         == (if j == 0 then "" else ValuesText(encode, prefix, values[..j]) + "&") + prefix + ValueText(encode, values[j])
  {
    assert values[..j + 1][..j] == values[..j];
  }

  /** The serialisation of one more entry. */
  lemma SerializeStep(encode: string -> string, entries: seq<Entry>, i: nat)
    requires i < |entries|
    ensures var before := Serialize(encode, entries[..i]);
            Serialize(encode, entries[..i + 1]) == before + (if before == "" then "" else "&") + EntryText(encode, entries[i])
  {
    assert entries[..i + 1][..i] == entries[..i];
  }

  /** The inner loop of Parse: it scans from `start` to the segment's end and remembers its
      first '='. */
  method ScanSegment(s: string, start: nat) returns (index: nat, delimiterIndex: int)
    requires start <= |s|
    ensures index == SegmentEnd(s, start) && delimiterIndex == Delimiter(s, start, index)
  {
    index := start;
    delimiterIndex := -1;
    while index < |s|
      invariant start <= index <= |s|
      invariant forall k :: start <= k < index ==> s[k] != '&'
      invariant delimiterIndex == -1 ==> forall k :: start <= k < index ==> s[k] != '='
      invariant delimiterIndex != -1 ==>
        && start <= delimiterIndex < index && s[delimiterIndex] == '='
        && forall k :: start <= k < delimiterIndex ==> s[k] != '='
    {
      var ch := s[index];
      if ch == '=' {
        if delimiterIndex < 0 {
          delimiterIndex := index;
        }
      } else if ch == '&' {
        break;
      }
      index := index + 1;
    }
    SegmentScanned(s, start, index, delimiterIndex);
  }

  /** The segment at `index`, cut out of the string: where it ends, its name (null
      without a '=') and its value. */
  method ReadSegment(s: string, index: nat) returns (end: nat, name: Option<string>, value: string)
    requires index < |s|
    ensures end == SegmentEnd(s, index) && (name, value) == SegmentPair(s, index, end)
  {
    var startIndex := index;
    var delimiterIndex;
    end, delimiterIndex := ScanSegment(s, startIndex);
    name := None;
    if delimiterIndex > -1 {
      name := Some(s[startIndex..delimiterIndex]);
      value := s[delimiterIndex + 1..end];
    } else {
      value := s[startIndex..end];
    }
  }

  /** A round below the key cap continues past the segment with its keys added. */
  lemma ParseStepContinues(s: string, index: nat, entries: seq<Entry>, decode: string -> string)
    requires index < |s| && |entries| < MaxKeyCount
    ensures ParseStep(s, index, entries, decode) == ParseFrom(s, SegmentEnd(s, index) + 1, SegmentEntries(s, index, entries, decode), decode)
  {
  }

  /** The rest of one round of Parse's outer loop, past the key cap: the segment goes in
      as a key and value, then the null key with an empty value if the segment ends in a
      final '&'; the round ends past the segment. */
  method ParseSegment(collection: HttpValueCollection, s: string, index: nat, decode: string -> string)
    returns (next: nat)
    requires collection.Valid() && index < |s| && |collection.entries| < MaxKeyCount
    modifies collection
    ensures collection.Valid() && index < next <= |s| + 1
    ensures ParseFrom(s, next, collection.entries, decode) == ParseStep(s, index, old(collection.entries), decode)
  {
    ParseStepContinues(s, index, collection.entries, decode);
    ghost var after := SegmentEntries(s, index, collection.entries, decode);
    var end, name, value := ReadSegment(s, index);
    collection.Add(Decoded(decode, name), Some(decode(value)));
    if end == |s| - 1 && s[end] == '&' {
      collection.Add(None, Some(""));
    }
    assert collection.entries == after;
    next := end + 1;
  }

  class HttpValueCollection {
    /** The NameValueCollection contents: one entry per key, in insertion order. */
    var entries: seq<Entry>
    /** The string ToString last built, cleared by every change. */
    var cache: Option<string>
    /** WebUtility.UrlEncode. */
    const encode: string -> string

    ghost predicate Valid()
      reads this
    {
      && DistinctKeys(entries)
      && (cache.Some? ==> cache.value == Serialize(encode, entries))
    }

    /** The empty collection, keyed by StringComparer.OrdinalIgnoreCase. */
    constructor (encode: string -> string)
      ensures Valid() && entries == [] && cache == None && this.encode == encode
    {
      entries := [];
      cache := None;
      this.encode := encode;
    }

    /** NameValueCollection.Count: the number of keys. */
    function Count(): nat
      reads this
    {
      |entries|
    }

    /** Add: drops the cached string and adds the value to its key. */
    method Add(name: Option<string>, value: Option<string>)
      requires Valid()
      modifies this
      ensures Valid() && entries == AddValue(old(entries), name, value) && cache == None
    {
      cache := None;
      AddValueKeys(entries, name, value);
      entries := AddValue(entries, name, value);
    }

    /** Remove: drops the cached string and the key. */
    method Remove(name: Option<string>)
      requires Valid()
      modifies this
      ensures Valid() && entries == RemoveKey(old(entries), name) && cache == None
    {
      cache := None;
      RemoveKeyKeys(entries, name);
      entries := RemoveKey(entries, name);
    }

    /** Set: drops the cached string and makes the value the key's only one. */
    method Set(name: Option<string>, value: Option<string>)
      requires Valid()
      modifies this
      ensures Valid() && entries == SetValue(old(entries), name, value) && cache == None
    {
      cache := None;
      SetValueSpec(entries, name, value, name);
      entries := SetValue(entries, name, value);
    }

    /** ToString: the empty string for no keys, else the cached string, built on first use;
        either way the serialisation of the current contents. */
    method ToString() returns (r: string)
      requires Valid()
      modifies this
      ensures Valid() && entries == old(entries)
      ensures r == Serialize(encode, entries)
      ensures if |entries| == 0 then cache == old(cache) else cache == Some(r)
    {
      if Count() == 0 {
        return "";
      }
      if cache.Some? {
        return cache.value;
      }
      r := BuildString();
      cache := Some(r);
    }

    /** BuildString: one pass over the keys, each written after a '&' unless nothing has
        been written yet. */
    method BuildString() returns (r: string)
      ensures r == Serialize(encode, entries)
    {
      var builder := "";
      for i := 0 to |entries|
        invariant builder == Serialize(encode, entries[..i])
      {
        SerializeStep(encode, entries, i);
        if |builder| != 0 {
          builder := builder + "&";
        }
        builder := AppendEntry(encode, builder, entries[i]);
      }
      assert entries[..|entries|] == entries;
      r := builder;
    }

    /** Parse: the collection ParseQuery describes, built with Add, or its error. */
    static method Parse(str: Option<string>, encode: string -> string, decode: string -> string)
      returns (r: Result<HttpValueCollection>)
      ensures ParseQuery(str, decode).Err? ==> r == Err(ParseQuery(str, decode).error)
      ensures ParseQuery(str, decode).Ok? ==>
        && r.Ok? && fresh(r.value) && r.value.Valid()
        && r.value.entries == ParseQuery(str, decode).value && r.value.encode == encode
    {
      if str.None? {
        return Err(ArgumentNull("str"));
      }
      var collection := new HttpValueCollection(encode);
      var s := str.value;
      var length := |s|;
      if length == 0 {
        return Ok(collection);
      }
      var index := 0;
      if s[index] == '?' {
        index := index + 1;
      }
      while index < length
        invariant index <= length + 1
        invariant fresh(collection) && collection.Valid() && collection.encode == encode
        invariant ParseFrom(s, index, collection.entries, decode) == ParseQuery(str, decode)
        decreases length + 1 - index
      {
        assert ParseFrom(s, index, collection.entries, decode) == ParseStep(s, index, collection.entries, decode);
        if |collection.entries| >= MaxKeyCount {
          return Err(InvalidOperation(MaxKeysMessage));
        }
        index := ParseSegment(collection, s, index, decode);
      }
      return Ok(collection);
    }
  }
}
