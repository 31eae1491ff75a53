/** Parameter binding for ClickHouseCommand: inline substitution of {name:type} spans
    (SubstituteParameters), the name-to-value table it reads, and the query parameters
    sent instead when the server supports HTTP parameters. */
module Binding {
  import opened Errors
  import opened Text

  /** A bound ClickHouseDbParameter: its ParameterName and its value. How the value is
      rendered is up to the formatters, which are parameters of the operations below. */
  datatype Parameter = Parameter(name: string, value: string)

  /** The message of the NotSupportedException for a span without a type. */
  function NoTypeMessage(param: string): string {
    "param " + param + " doesn`t have data type"
  }

  /** The one argument the ArgumentOutOfRangeException for an unknown name is created
      with, which the exception takes as its parameter name. */
  function UnknownNameMessage(name: string): string {
    "Parameter " + name + " not found in parameters list"
  }

  /** `prefix` followed by the text of `r`, or the error of `r`. */
  function Prepend(prefix: string, r: Result<string>): Result<string> {
    match r
    case Ok(s) => Ok(prefix + s)
    case Err(e) => Err(e)
  }

  lemma PrependEmpty(r: Result<string>)
    ensures Prepend("", r) == r
  {
    if r.Ok? {
      assert "" + r.value == r.value;
    }
  }

  /** What SubstituteParameters computes from position `from` on: the text up to the next
      `{` is copied, the span up to the following `}` is replaced by the value of its name
      (the text before its last `:`), and the scan goes on after the `}`. */
  function SubstituteFrom(query: string, parameters: map<string, string>, from: nat): Result<string>
    requires from <= |query|
    decreases |query| - from, 1
  {
    SubstituteAt(query, parameters, from, IndexOf(query, '{', from))
  }

  /** The same, given the position `start` of the next `{` (-1 for none). An unclosed `{`
      makes Substring fail on a negative length. */
  function SubstituteAt(query: string, parameters: map<string, string>, from: nat, start: int): Result<string>
    requires from <= |query| && (start == -1 || from <= start < |query|)
    decreases |query| - from, 0
  {
    if start == -1 then Ok(query[from..])
    else
      var end := IndexOf(query, '}', start + 1);
      if end == -1 then Err(ArgumentOutOfRange("length"))
      else
        match SpanValue(query[start + 1..end], parameters)
        case Err(e) => Err(e)
        case Ok(value) => Prepend(query[from..start] + value, SubstituteFrom(query, parameters, end + 1))
  }

  /** The value a span `{param}` is replaced by: the one bound to the text before the last
      `:` of `param`. */
  function SpanValue(param: string, parameters: map<string, string>): Result<string> {
    var delimiter := LastIndexOf(param, ':');
    if delimiter == -1 then Err(NotSupported(NoTypeMessage(param)))
    else
      var name := param[..delimiter];
      if name !in parameters then Err(ArgumentOutOfRange(UnknownNameMessage(name)))
      else Ok(parameters[name])
  }

  /** The whole substitution. */
  function Substitute(query: string, parameters: map<string, string>): Result<string> {
    SubstituteFrom(query, parameters, 0)
  }

  /** SubstituteParameters: one scan over the query with a StringBuilder. `paramEndPos` is
      the position of the last `}` consumed (-1 before the first), and the scan for the next
      `{` always runs over the original query, so substituted values are never rescanned. */
  method SubstituteParameters(query: string, parameters: map<string, string>) returns (r: Result<string>)
    ensures r == Substitute(query, parameters)
  {
    var builder := "";
    var paramStartPos := IndexOf(query, '{', 0);
    var paramEndPos := -1;
    PrependEmpty(Substitute(query, parameters));
    while paramStartPos != -1
      invariant -1 <= paramEndPos < |query|
      invariant paramStartPos == IndexOf(query, '{', paramEndPos + 1)
      invariant Substitute(query, parameters) == Prepend(builder, SubstituteFrom(query, parameters, paramEndPos + 1))
      decreases |query| - paramEndPos
    {
      ghost var before := builder;
      ghost var from := paramEndPos + 1;
      ghost var start := paramStartPos;
      builder := builder + query[paramEndPos + 1..paramStartPos];
      paramStartPos := paramStartPos + 1;
      paramEndPos := IndexOf(query, '}', paramStartPos);
      if paramEndPos == -1 {
        SubstituteFromUnclosed(query, parameters, from, start);
        return Err(ArgumentOutOfRange("length"));
      }
      var value := BindSpan(query[paramStartPos..paramEndPos], parameters);
      if value.Err? {
        SubstituteFromSpanError(query, parameters, from, start, paramEndPos);
        return Err(value.error);
      }
      builder := builder + value.value;
      ScanStep(query, parameters, before, from, start, paramEndPos);
      IndexOfHit(query, '}', paramStartPos);
      IndexOfSkip(query, '{', paramEndPos);
      paramStartPos := IndexOf(query, '{', paramEndPos);
    }
    SubstituteFromDone(query, parameters, paramEndPos + 1);
    builder := builder + query[paramEndPos + 1..];
    return Ok(builder);
  }

  /** The body of one iteration of SubstituteParameters after the `}` is found: the span's
      name is the text before its last `:`, and it must be bound. */
  method BindSpan(param: string, parameters: map<string, string>) returns (r: Result<string>)
    ensures r == SpanValue(param, parameters)
    ensures ':' !in param ==> r == Err(NotSupported(NoTypeMessage(param)))
    ensures ':' in param ==>
              var d := LastIndexOf(param, ':');
              && 0 <= d < |param| && param[d] == ':' && ':' !in param[d + 1..]
              && r == if param[..d] in parameters then Ok(parameters[param[..d]])
                      else Err(ArgumentOutOfRange(UnknownNameMessage(param[..d])))
  {
    LastIndexBeforeFinds(param, ':', |param|);
    var delimiterPos := LastIndexOf(param, ':');
    if delimiterPos == -1 {
      return Err(NotSupported(NoTypeMessage(param)));
    }
    var name := param[..delimiterPos];
    if name !in parameters {
      return Err(ArgumentOutOfRange(UnknownNameMessage(name)));
    }
    return Ok(parameters[name]);
  }

  /** Searching a suffix from `j` is searching the whole string from `k + j`. */
  lemma IndexOfOffset(s: string, c: char, k: nat, j: nat)
    requires k + j <= |s|
    ensures IndexOf(s[k..], c, j) == (if IndexOf(s, c, k + j) == -1 then -1 else IndexOf(s, c, k + j) - k)
  {
    var a := IndexOf(s, c, k + j);
    IndexOfFinds(s, c, k + j);
    IndexOfFinds(s[k..], c, j);
    if a != -1 {
      assert s[k..][a - k] == c;
    }
  }

  /** No `{` from `from` on: the rest is copied. */
  lemma SubstituteFromDone(query: string, parameters: map<string, string>, from: nat)
    requires from <= |query| && IndexOf(query, '{', from) == -1
    ensures SubstituteFrom(query, parameters, from) == Ok(query[from..])
  {
    assert SubstituteFrom(query, parameters, from) == SubstituteAt(query, parameters, from, -1);
  }

  /** A `{` at `start` with no `}` after it: Substring fails on a negative length. */
  lemma SubstituteFromUnclosed(query: string, parameters: map<string, string>, from: nat, start: nat)
    requires from <= start < |query|
    requires start == IndexOf(query, '{', from) && IndexOf(query, '}', start + 1) == -1
    ensures SubstituteFrom(query, parameters, from) == Err(ArgumentOutOfRange("length"))
  {
    assert SubstituteFrom(query, parameters, from) == SubstituteAt(query, parameters, from, start);
  }

  /** A span that cannot be bound ends the scan with its error. */
  lemma SubstituteFromSpanError(query: string, parameters: map<string, string>, from: nat, start: nat, end: nat)
    requires from <= start < end < |query|
    requires start == IndexOf(query, '{', from) && end == IndexOf(query, '}', start + 1)
    requires SpanValue(query[start + 1..end], parameters).Err?
    ensures SubstituteFrom(query, parameters, from) == SpanValue(query[start + 1..end], parameters)
  {
    assert SubstituteFrom(query, parameters, from) == SubstituteAt(query, parameters, from, start);
  }

  /** One step of the scan: the span from `start` to `end` is bound. */
  lemma SubstituteFromStep(query: string, parameters: map<string, string>, from: nat, start: nat, end: nat)
    requires from <= start < end < |query|
    requires start == IndexOf(query, '{', from) && end == IndexOf(query, '}', start + 1)
    requires SpanValue(query[start + 1..end], parameters).Ok?
    ensures SubstituteFrom(query, parameters, from)
         == Prepend(query[from..start] + SpanValue(query[start + 1..end], parameters).value,
                    SubstituteFrom(query, parameters, end + 1))
  {
    assert SubstituteFrom(query, parameters, from) == SubstituteAt(query, parameters, from, start);
  }

  /** One iteration of the scan, with the text `before` built so far in front. */
  lemma ScanStep(query: string, parameters: map<string, string>, before: string, from: nat, start: nat, end: nat)
    requires from <= start < end < |query|
    requires start == IndexOf(query, '{', from) && end == IndexOf(query, '}', start + 1)
    requires SpanValue(query[start + 1..end], parameters).Ok?
    ensures Prepend(before, SubstituteFrom(query, parameters, from))
         == Prepend(before + query[from..start] + SpanValue(query[start + 1..end], parameters).value,
                    SubstituteFrom(query, parameters, end + 1))
  {
    SubstituteFromStep(query, parameters, from, start, end);
    PrependAssoc(before, query[from..start], SpanValue(query[start + 1..end], parameters).value,
                 SubstituteFrom(query, parameters, end + 1));
  }

  /** Substituting from `k + j` is substituting the rest of the query after `k` from `j`:
      the scan only looks forward, so the text before `k` plays no part. */
  lemma {:induction false} SubstituteFromSuffix(query: string, parameters: map<string, string>, k: nat, j: nat)
    requires k + j <= |query|
    ensures SubstituteFrom(query, parameters, k + j) == SubstituteFrom(query[k..], parameters, j)
    decreases |query| - k - j
  {
    var start := IndexOf(query, '{', k + j);
    var end := if start == -1 then -1 else IndexOf(query, '}', start + 1);
    if start != -1 && end != -1 && SpanValue(query[start + 1..end], parameters).Ok? {
      var next: nat := end + 1 - k;
      var prefix := query[k + j..start] + SpanValue(query[start + 1..end], parameters).value;
      calc {
        SubstituteFrom(query, parameters, k + j);
        { SubstituteFromStep(query, parameters, k + j, start, end); }
        Prepend(prefix, SubstituteFrom(query, parameters, k + next));
        { SubstituteFromSuffix(query, parameters, k, next); }
        Prepend(prefix, SubstituteFrom(query[k..], parameters, next));
        { SuffixStep(query, parameters, k, j, start, end); }
        SubstituteFrom(query[k..], parameters, j);
      }
    } else if start == -1 {
      SuffixDone(query, parameters, k, j);
    } else if end == -1 {
      SuffixUnclosed(query, parameters, k, j, start);
    } else {
      SuffixSpanError(query, parameters, k, j, start, end);
    }
  }

  /** The suffix has no `{` from `j` on either. */
  lemma SuffixDone(query: string, parameters: map<string, string>, k: nat, j: nat)
    requires k + j <= |query| && IndexOf(query, '{', k + j) == -1
    ensures SubstituteFrom(query, parameters, k + j) == SubstituteFrom(query[k..], parameters, j)
  {
    IndexOfOffset(query, '{', k, j);
    SubstituteFromDone(query, parameters, k + j);
    SubstituteFromDone(query[k..], parameters, j);
    SuffixOfSuffix(query, k, k + j);
  }

  /** The suffix has the same unclosed `{`. */
  lemma SuffixUnclosed(query: string, parameters: map<string, string>, k: nat, j: nat, start: nat)
    requires k + j <= start < |query|
    requires start == IndexOf(query, '{', k + j) && IndexOf(query, '}', start + 1) == -1
    ensures SubstituteFrom(query, parameters, k + j) == SubstituteFrom(query[k..], parameters, j)
  {
    IndexOfOffset(query, '{', k, j);
    IndexOfOffset(query, '}', k, start + 1 - k);
    SubstituteFromUnclosed(query, parameters, k + j, start);
    SubstituteFromUnclosed(query[k..], parameters, j, start - k);
  }

  /** The suffix has the same span, which cannot be bound. */
  lemma SuffixSpanError(query: string, parameters: map<string, string>, k: nat, j: nat, start: nat, end: nat)
    requires k + j <= start < end < |query|
    requires start == IndexOf(query, '{', k + j) && end == IndexOf(query, '}', start + 1)
    requires SpanValue(query[start + 1..end], parameters).Err?
    ensures SubstituteFrom(query, parameters, k + j) == SubstituteFrom(query[k..], parameters, j)
  {
    IndexOfOffset(query, '{', k, j);
    IndexOfOffset(query, '}', k, start + 1 - k);
    SliceOfSuffix(query, k, start + 1 - k, end - k);
    SubstituteFromSpanError(query, parameters, k + j, start, end);
    SubstituteFromSpanError(query[k..], parameters, j, start - k, end - k);
  }

  /** The suffix has the same span, bound to the same value. */
  lemma SuffixStep(query: string, parameters: map<string, string>, k: nat, j: nat, start: nat, end: nat)
    requires k + j <= start < end < |query|
    requires start == IndexOf(query, '{', k + j) && end == IndexOf(query, '}', start + 1)
    requires SpanValue(query[start + 1..end], parameters).Ok?
    ensures SubstituteFrom(query[k..], parameters, j)
         == Prepend(query[k + j..start] + SpanValue(query[start + 1..end], parameters).value,
                    SubstituteFrom(query[k..], parameters, end + 1 - k))
  {
    var q := query[k..];
    var s0: nat := start - k;
    var e0: nat := end - k;
    IndexOfOffset(query, '{', k, j);
    IndexOfOffset(query, '}', k, s0 + 1);
    SliceOfSuffix(query, k, s0 + 1, e0);
    SliceOfSuffix(query, k, j, s0);
    var span := query[start + 1..end];
    assert q[s0 + 1..e0] == span;
    SubstituteFromStep(q, parameters, j, s0, e0);
  }

  lemma SuffixOfSuffix(s: string, k: nat, j: nat)
    requires k <= j <= |s|
    ensures s[k..][j - k..] == s[j..]
  {
  }

  lemma SliceOfSuffix(s: string, k: nat, i: nat, j: nat)
    requires k + i <= k + j <= |s|
    ensures s[k..][i..j] == s[k + i..k + j]
  {
  }

  /** Appending in two steps is appending once. */
  lemma PrependAssoc(a: string, b: string, c: string, r: Result<string>)
    ensures Prepend(a, Prepend(b + c, r)) == Prepend(a + b + c, r)
  {
    if r.Ok? {
      assert a + (b + c + r.value) == a + b + c + r.value;
    }
  }

  /** Searching past a prefix without `c`. */
  lemma IndexOfPastPrefix(a: string, b: string, c: char)
    requires c !in a
    ensures IndexOf(a + b, c, 0) == (if IndexOf(b, c, 0) == -1 then -1 else |a| + IndexOf(b, c, 0))
  {
    var q := a + b;
    var i := IndexOf(q, c, 0);
    var j := IndexOf(b, c, 0);
    IndexOfFinds(q, c, 0);
    IndexOfFinds(b, c, 0);
    assert forall k :: 0 <= k < |a| ==> q[k] == a[k];
    assert forall k :: 0 <= k < |b| ==> q[|a| + k] == b[k];
    if j != -1 {
      assert q[|a| + j] == c;
    }
    if i != -1 {
      assert i >= |a|;
      assert b[i - |a|] == c;
    }
  }

  /** The query `text{param}rest`, written so that its parts are easy to read back. */
  function Span(text: string, param: string, rest: string): string {
    text + ("{" + (param + ("}" + rest)))
  }

  /** The first `{` of `text{param}rest` is the one after `text`. */
  lemma SpanStart(text: string, param: string, rest: string)
    requires '{' !in text
    ensures IndexOf(Span(text, param, rest), '{', 0) == |text|
  {
    var tail := "{" + (param + ("}" + rest));
    IndexOfPastPrefix(text, tail, '{');
    assert tail[0] == '{';
  }

  /** The first `}` after that `{` is the one after `param`. */
  lemma SpanEnd(text: string, param: string, rest: string)
    requires '}' !in param
    ensures IndexOf(Span(text, param, rest), '}', |text| + 1) == |text| + 1 + |param|
  {
    var q := Span(text, param, rest);
    SpanParts(text, param, rest);
    IndexOfOffset(q, '}', |text| + 1, 0);
    IndexOfPastPrefix(param, "}" + rest, '}');
    assert ("}" + rest)[0] == '}';
  }

  /** The three parts read back from `text{param}rest`. */
  lemma SpanParts(text: string, param: string, rest: string)
    ensures Span(text, param, rest)[..|text|] == text
    ensures Span(text, param, rest)[|text| + 1..] == param + ("}" + rest)
    ensures Span(text, param, rest)[|text| + 1..|text| + 1 + |param|] == param
    ensures Span(text, param, rest)[|text| + 2 + |param|..] == rest
  {
  }

  /** Substitute on `text{param}rest`: the span's error, or the text, the span's value and
      the substitution of the rest on its own. */
  lemma SubstituteSpanStep(text: string, param: string, rest: string, parameters: map<string, string>)
    requires '{' !in text && '}' !in param
    ensures Substitute(Span(text, param, rest), parameters)
         == match SpanValue(param, parameters)
            case Err(e) => Err(e)
            case Ok(v) => Prepend(text + v, Substitute(rest, parameters))
  {
    var q := Span(text, param, rest);
    var end := |text| + 1 + |param|;
    SpanStart(text, param, rest);
    SpanEnd(text, param, rest);
    SpanParts(text, param, rest);
    if SpanValue(param, parameters).Err? {
      SubstituteFromSpanError(q, parameters, 0, |text|, end);
    } else {
      SubstituteFromStep(q, parameters, 0, |text|, end);
      assert q[0..|text|] == text;
      SubstituteFromSuffix(q, parameters, end + 1, 0);
    }
  }

  /** The last `:` of `name:typ` is the one after `name` when `typ` has none. */
  lemma LastColon(name: string, typ: string)
    requires ':' !in typ
    ensures LastIndexOf(name + ":" + typ, ':') == |name|
    ensures (name + ":" + typ)[..|name|] == name
  {
    var param := name + ":" + typ;
    assert param[|name|] == ':';
    assert forall k :: |name| < k < |param| ==> param[k] == typ[k - |name| - 1];
    LastIndexBeforeFinds(param, ':', |param|);
  }

  /** A query without `{` is returned unchanged. */
  lemma SubstituteNoBrace(query: string, parameters: map<string, string>)
    requires '{' !in query
    ensures Substitute(query, parameters) == Ok(query)
  {
    IndexOfHit(query, '{', 0);
    SubstituteFromDone(query, parameters, 0);
    assert query[0..] == query;
  }

  /** A span `{name:type}` is replaced by the value of `name`, the text in front of it is
      kept, and the rest of the query is substituted on its own. The name is everything
      before the last `:`, so it may itself contain colons. */
  lemma SubstituteSpan(text: string, name: string, typ: string, rest: string, parameters: map<string, string>)
    requires '{' !in text && '}' !in name && '}' !in typ && ':' !in typ
    requires name in parameters
    ensures Substitute(Span(text, name + ":" + typ, rest), parameters)
         == Prepend(text + parameters[name], Substitute(rest, parameters))
  {
    SubstituteSpanStep(text, name + ":" + typ, rest, parameters);
    LastColon(name, typ);
  }

  /** A span without `:` raises NotSupportedException naming the span. */
  lemma SubstituteUntyped(text: string, param: string, rest: string, parameters: map<string, string>)
    requires '{' !in text && '}' !in param && ':' !in param
    ensures Substitute(Span(text, param, rest), parameters) == Err(NotSupported(NoTypeMessage(param)))
  {
    LastIndexBeforeFinds(param, ':', |param|);
    SubstituteSpanStep(text, param, rest, parameters);
  }

  /** A span whose name is not bound raises ArgumentOutOfRangeException naming it. */
  lemma SubstituteUnknown(text: string, name: string, typ: string, rest: string, parameters: map<string, string>)
    requires '{' !in text && '}' !in name && '}' !in typ && ':' !in typ
    requires name !in parameters
    ensures Substitute(Span(text, name + ":" + typ, rest), parameters)
         == Err(ArgumentOutOfRange(UnknownNameMessage(name)))
  {
    SubstituteSpanStep(text, name + ":" + typ, rest, parameters);
    LastColon(name, typ);
  }

  /** A `{` with no `}` after it fails, whatever the parameters. */
  lemma SubstituteUnclosed(text: string, tail: string, parameters: map<string, string>)
    requires '{' !in text && '}' !in tail
    ensures Substitute(text + "{" + tail, parameters) == Err(ArgumentOutOfRange("length"))
  {
    var q := text + "{" + tail;
    IndexOfFinds(q, '{', 0);
    IndexOfFinds(q, '}', |text| + 1);
    assert q[|text|] == '{';
    assert forall k :: 0 <= k < |text| ==> q[k] == text[k];
    assert forall k :: |text| < k < |q| ==> q[k] == tail[k - |text| - 1];
    SubstituteFromUnclosed(q, parameters, 0, |text|);
  }

  /** "select {x:Int32}" with x bound to "5" gives "select 5". */
  lemma SubstituteExample(query: string, parameters: map<string, string>)
    requires query == "select {x:Int32}" && parameters == map["x" := "5"]
    ensures Substitute(query, parameters) == Ok("select 5")
  {
    var text, name, typ := "select ", "x", "Int32";
    assert query == Span(text, name + ":" + typ, "");
    SubstituteSpan(text, name, typ, "", parameters);
    SubstituteNoBrace("", parameters);
    assert text + parameters[name] + "" == "select 5";
  }

  /** A value that looks like a span is copied as it is and not looked up again. */
  lemma SubstituteDoesNotRescan(query: string, parameters: map<string, string>)
    requires query == "{x:T}" && parameters == map["x" := "{y:T}"]
    ensures Substitute(query, parameters) == Ok("{y:T}")
  {
    var name, typ := "x", "T";
    assert query == Span("", name + ":" + typ, "");
    SubstituteSpan("", name, typ, "", parameters);
    SubstituteNoBrace("", parameters);
    assert "" + parameters[name] + "" == "{y:T}";
  }

  /** The table the inline branch of PostSqlQueryAsync fills with Dictionary.TryAdd, one
      parameter at a time: a name already in the table is skipped. */
  function FirstWins(ps: seq<Parameter>, format: Parameter -> string): map<string, string> {
    if ps == [] then map[]
    else
      var m := FirstWins(ps[..|ps| - 1], format);
      var last := ps[|ps| - 1];
      if last.name in m then m else m[last.name := format(last)]
  }

  /** Every parameter name is a key of the table, and no other. */
  lemma {:induction false} FirstWinsKeys(ps: seq<Parameter>, format: Parameter -> string)
    ensures forall n :: n in FirstWins(ps, format) <==> exists k :: 0 <= k < |ps| && ps[k].name == n
  {
    if ps != [] {
      var init := ps[..|ps| - 1];
      var last := ps[|ps| - 1];
      FirstWinsKeys(init, format);
      var before := FirstWins(init, format);
      var m := FirstWins(ps, format);
      assert m == if last.name in before then before else before[last.name := format(last)];
      assert forall n :: n in before <==> exists k :: 0 <= k < |init| && init[k].name == n;
      assert forall k :: 0 <= k < |init| ==> init[k] == ps[k];
      forall n | n in m ensures exists k :: 0 <= k < |ps| && ps[k].name == n {
        if n in before {
          var k :| 0 <= k < |init| && init[k].name == n;
          assert ps[k].name == n;
        } else {
          assert ps[|ps| - 1].name == n;
        }
      }
      forall n | exists k :: 0 <= k < |ps| && ps[k].name == n ensures n in m {
        var k :| 0 <= k < |ps| && ps[k].name == n;
        if k < |init| {
          assert init[k].name == n;
        }
      }
    }
  }

  /** For a repeated name the first parameter wins: the parameter at `k`, whose name no
      earlier parameter has, gives its formatted value to its name. */
  lemma {:induction false} FirstWinsFirst(ps: seq<Parameter>, format: Parameter -> string, k: nat)
    requires k < |ps| && forall j :: 0 <= j < k ==> ps[j].name != ps[k].name
    ensures var m := FirstWins(ps, format);
            ps[k].name in m && m[ps[k].name] == format(ps[k])
  {
    var init := ps[..|ps| - 1];
    var last := ps[|ps| - 1];
    var before := FirstWins(init, format);
    assert forall j :: 0 <= j < |init| ==> init[j] == ps[j];
    assert FirstWins(ps, format) == if last.name in before then before else before[last.name := format(last)];
    if k < |init| {
      FirstWinsFirst(init, format, k);
      assert init[k] == ps[k];
    } else {
      assert ps[k] == last;
      FirstWinsKeys(init, format);
      assert forall j :: 0 <= j < |init| ==> init[j].name != last.name;
      assert !exists j :: 0 <= j < |init| && init[j].name == last.name;
    }
  }

  /** The loop filling that table. */
  method FormatInline(ps: seq<Parameter>, format: Parameter -> string) returns (m: map<string, string>)
    ensures m == FirstWins(ps, format)
  {
    m := map[];
    var k := 0;
    while k < |ps|
      invariant 0 <= k <= |ps|
      invariant m == FirstWins(ps[..k], format)
    {
      assert ps[..k + 1][..k] == ps[..k];
      if ps[k].name !in m {
        m := m[ps[k].name := format(ps[k])];
      }
      k := k + 1;
    }
    assert ps[..k] == ps;
  }

  /** The query parameters the HTTP branch adds: one per bound parameter, in order. */
  function HttpQueryParameters(ps: seq<Parameter>, format: Parameter -> string): (qs: seq<(string, string)>)
    ensures |qs| == |ps|
    ensures forall k :: 0 <= k < |ps| ==> qs[k] == (ps[k].name, format(ps[k]))
  {
    if ps == [] then [] else HttpQueryParameters(ps[..|ps| - 1], format) + [(ps[|ps| - 1].name, format(ps[|ps| - 1]))]
  }

  /** The loop adding them with AddQueryParameter. */
  method FormatHttp(ps: seq<Parameter>, format: Parameter -> string) returns (qs: seq<(string, string)>)
    ensures qs == HttpQueryParameters(ps, format)
  {
    qs := [];
    var k := 0;
    while k < |ps|
      invariant 0 <= k <= |ps|
      invariant qs == HttpQueryParameters(ps[..k], format)
    {
      assert ps[..k + 1][..k] == ps[..k];
      qs := qs + [(ps[k].name, format(ps[k]))];
      k := k + 1;
    }
    assert ps[..k] == ps;
  }
}
