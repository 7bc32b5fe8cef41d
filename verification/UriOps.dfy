/** The path and the query fields of a request. Strings hold no NUL, which ends them. */
module UriOps {
  import opened StringOps

  /** `Wild` is a view of a wrapped-around length, which the program makes when it takes the '=' of a later field for
      that of a field without one. */
  datatype View = Text(text: string) | Wild

  type Values = map<string, View>

  /** An existing key keeps its value. */
  function Emplace(values: Values, key: string, value: View): Values {
    if key in values then values else values[key := value]
  }

  /** The characters before the first '?'. */
  method ParsePath(uri: string) returns (path: string)
    ensures path <= uri && '?' !in path
    ensures path == uri || uri[|path|] == '?'
  {
    path := uri[..Index(uri, '?')];
  }

  /** Parses the field from `begin` to `end`, which is the position of its last character; but looks for '=' in all
      that follows. */
  method ParseKeyValue(values: Values, uri: string, begin: nat, end: int) returns (fields: Values)
    requires begin <= |uri| && begin - 1 <= end < |uri|
    ensures fields == Field(values, uri[begin..], end - begin + 1)
  {
    var delimiter := begin + Index(uri[begin..], '=');
    if delimiter == |uri| || delimiter == begin || delimiter == end {
      return values;
    }
    var key := uri[begin..delimiter];
    assert uri[begin..][..delimiter - begin] == key;
    if delimiter > end {
      return Emplace(values, key, Wild);
    }
    var value := uri[delimiter + 1..end + 1];
    assert uri[begin..][delimiter - begin + 1..end - begin + 1] == value;
    return Emplace(values, key, Text(value));
  }

  /** The field that is the first `n` characters of `rest`. */
  function Field(values: Values, rest: string, n: nat): Values
    requires n <= |rest|
  {
    var eq := Index(rest, '=');
    if eq == |rest| || eq == 0 || eq == n - 1 then values
    else Emplace(values, rest[..eq], if eq >= n then Wild else Text(rest[eq + 1..n]))
  }

  /** The fields of what follows a '?' or a '&'. */
  function Query(values: Values, rest: string): Values
    decreases |rest|
  {
    var n := Index(rest, '&');
    if n == |rest| then Field(values, rest, n) else Query(Field(values, rest, n), rest[n + 1..])
  }

  lemma QueryStep(values: Values, rest: string, n: nat, fields: Values)
    requires n == Index(rest, '&') && fields == Field(values, rest, n)
    ensures Query(values, rest) == if n == |rest| then fields else Query(fields, rest[n + 1..])
  {
  }

  /** The field at a position, and where it ends. */
  method ParseField(values: Values, uri: string, start: nat) returns (fields: Values, n: nat)
    requires start <= |uri|
    ensures n == Index(uri[start..], '&') && fields == Field(values, uri[start..], n)
  {
    n := Index(uri[start..], '&');
    fields := ParseKeyValue(values, uri, start, start + n - 1);
    assert start + n - 1 - start + 1 == n;
  }

  /** The fields after the '?' or '&' at a position, if it is one. */
  function FieldsAfter(values: Values, uri: string, start: nat): Values {
    if start >= |uri| then values else Query(values, uri[start + 1..])
  }

  lemma NextField(values: Values, uri: string, start: nat, fields: Values, next: nat)
    requires start < next <= |uri| && next - start - 1 == Index(uri[start + 1..], '&')
    requires fields == Field(values, uri[start + 1..], next - start - 1)
    ensures FieldsAfter(values, uri, start) == FieldsAfter(fields, uri, next)
  {
    var rest, n := uri[start + 1..], next - start - 1;
    QueryStep(values, rest, n, fields);
    if n < |rest| {
      assert rest[n + 1..] == uri[next + 1..];
    }
  }

  /** The cursor moves from a '?' or '&' to the next '&'. */
  method ParseNext(values: Values, uri: string, start: nat) returns (fields: Values, next: nat)
    requires start < |uri|
    ensures start < next <= |uri| && FieldsAfter(values, uri, start) == FieldsAfter(fields, uri, next)
  {
    var n;
    fields, n := ParseField(values, uri, start + 1);
    next := start + 1 + n;
    NextField(values, uri, start, fields, next);
  }

  method ParseFrom(uri: string, queryStart: nat) returns (values: Values)
    requires queryStart < |uri|
    ensures values == FieldsAfter(map[], uri, queryStart)
  {
    var start := queryStart;
    values := map[];
    ghost var all := FieldsAfter(values, uri, start);
    while start != |uri|
      invariant start <= |uri| && all == FieldsAfter(values, uri, start)
      decreases |uri| - start
    {
      values, start := ParseNext(values, uri, start);
    }
  }

  method ParseQuery(uri: string) returns (values: Values)
    ensures values == FieldsAfter(map[], uri, Index(uri, '?'))
  {
    var start := Index(uri, '?');
    if start == |uri| {
      return map[];
    }
    values := ParseFrom(uri, start);
  }

  // ---- Meaning field by field ----

  /** The parts between delimiters, empty ones included. */
  function Segments(s: string, delimiter: char): seq<string>
    decreases |s|
  {
    var n := Index(s, delimiter);
    if n == |s| then [s] else [s[..n]] + Segments(s[n + 1..], delimiter)
  }

  predicate HasDelimiter(segments: seq<string>) {
    exists i :: 0 <= i < |segments| && '=' in segments[i]
  }

  /** What one field adds, followed by these. A key and a value that are not empty make an entry, unless the key has
      one already; and so does a field without '=', with all up to the next '=' as its key, if there is one. */
  function Entry(values: Values, segment: string, more: seq<string>): Values {
    var eq := Index(segment, '=');
    if eq < |segment| then
      if 0 < eq < |segment| - 1 then Emplace(values, segment[..eq], Text(segment[eq + 1..])) else values
    else if HasDelimiter(more) then Emplace(values, StrayKey([segment] + more), Wild)
    else values
  }

  function StrayKey(segments: seq<string>): string {
    Join(segments, '&')[..Index(Join(segments, '&'), '=')]
  }

  /** What the fields mean, one after the other. */
  function Meaning(values: Values, segments: seq<string>): Values
    decreases |segments|
  {
    if segments == [] then values
    else Meaning(Entry(values, segments[0], segments[1..]), segments[1..])
  }

  /** A field without '=' is followed by one that has it. */
  predicate Strays(segments: seq<string>) {
    exists i :: 0 <= i < |segments| && '=' !in segments[i] && HasDelimiter(segments[i + 1..])
  }

  lemma IndexInPrefix(s: string, c: char, n: nat)
    requires n <= |s|
    ensures c in s[..n] ==> Index(s, c) == Index(s[..n], c) < n
    ensures c !in s[..n] ==> Index(s, c) >= n
  {
    if c in s[..n] {
      var i := Index(s[..n], c);
      assert s[..n][..i] == s[..i];
      IndexOfFirst(s, c, i);
    } else {
      assert forall i :: 0 <= i < n ==> s[..n][i] == s[i];
    }
  }

  lemma {:induction false} AnyInSegments(s: string)
    ensures '=' in s <==> HasDelimiter(Segments(s, '&'))
    decreases |s|
  {
    var n, segments := Index(s, '&'), Segments(s, '&');
    if n == |s| {
      assert segments == [s];
      assert '=' in s ==> '=' in segments[0];
    } else {
      AnyInSegments(s[n + 1..]);
      assert s == s[..n] + ['&'] + s[n + 1..];
      HasDelimiterStep(segments);
    }
  }

  lemma HasDelimiterStep(segments: seq<string>)
    requires segments != []
    ensures HasDelimiter(segments) <==> '=' in segments[0] || HasDelimiter(segments[1..])
  {
    if HasDelimiter(segments[1..]) {
      var i :| 0 <= i < |segments| - 1 && '=' in segments[1..][i];
      assert '=' in segments[i + 1];
    }
    if HasDelimiter(segments) && '=' !in segments[0] {
      var i :| 0 <= i < |segments| && '=' in segments[i];
      assert '=' in segments[1..][i - 1];
    }
  }

  lemma StraysStep(segments: seq<string>)
    requires segments != []
    ensures Strays(segments) <==> ('=' !in segments[0] && HasDelimiter(segments[1..])) || Strays(segments[1..])
  {
    if Strays(segments[1..]) {
      var i :| 0 <= i < |segments| - 1 && '=' !in segments[1..][i] && HasDelimiter(segments[1..][i + 1..]);
      assert segments[1..][i + 1..] == segments[i + 1 + 1..];
      assert '=' !in segments[i + 1] && HasDelimiter(segments[i + 1 + 1..]);
    }
    if Strays(segments) {
      var i :| 0 <= i < |segments| && '=' !in segments[i] && HasDelimiter(segments[i + 1..]);
      if i > 0 {
        assert segments[1..][i - 1 + 1..] == segments[i + 1..];
        assert '=' !in segments[1..][i - 1] && HasDelimiter(segments[1..][i - 1 + 1..]);
      }
    }
  }

  /** Segments joined are the string. */
  lemma {:induction false} JoinOfSegments(s: string, delimiter: char)
    ensures Segments(s, delimiter) != [] && Join(Segments(s, delimiter), delimiter) == s
    decreases |s|
  {
    var n := Index(s, delimiter);
    if n < |s| {
      JoinOfSegments(s[n + 1..], delimiter);
      assert s == s[..n] + [delimiter] + s[n + 1..];
      assert Segments(s, delimiter)[1..] == Segments(s[n + 1..], delimiter);
    }
  }

  lemma IndexOf(s: string, segment: string, n: nat)
    requires n <= |s| && segment == s[..n]
    ensures '=' in segment ==> Index(s, '=') == Index(segment, '=') < n
    ensures '=' !in segment ==> Index(segment, '=') == n <= Index(s, '=')
  {
    IndexInPrefix(s, '=', n);
    if '=' !in segment {
      IndexOfFirst(segment, '=', n);
    }
  }

  /** The first field means what it adds. */
  lemma FirstField(values: Values, rest: string)
    ensures var n, segments := Index(rest, '&'), Segments(rest, '&');
            && segments[0] == rest[..n]
            && Field(values, rest, n) == Entry(values, segments[0], segments[1..])
  {
    var n, segments := Index(rest, '&'), Segments(rest, '&');
    assert n == |rest| ==> rest[..n] == rest;
    IndexOf(rest, segments[0], n);
    JoinOfSegments(rest, '&');
    AnyInSegments(rest);
    HasDelimiterStep(segments);
    assert [segments[0]] + segments[1..] == segments;
    FieldIsEntry(values, rest, n, segments[0], segments[1..]);
  }

  lemma FieldIsEntry(values: Values, rest: string, n: nat, segment: string, more: seq<string>)
    requires n <= |rest| && segment == rest[..n] && (n < |rest| ==> rest[n] == '&')
    requires Join([segment] + more, '&') == rest
    requires '=' in segment ==> Index(rest, '=') == Index(segment, '=') < n
    requires '=' !in segment ==> Index(segment, '=') == n <= Index(rest, '=')
    requires '=' in rest <==> '=' in segment || HasDelimiter(more)
    ensures Field(values, rest, n) == Entry(values, segment, more)
  {
    var eq := Index(rest, '=');
    if '=' in segment {
      assert segment[..eq] == rest[..eq] && segment[eq + 1..] == rest[eq + 1..n];
    } else if eq < |rest| {
      assert rest[eq] == '=' && eq != n;
    }
  }

  /** For every request: the entries that each field in turn adds. */
  lemma {:induction false} QueryMeans(values: Values, rest: string)
    ensures Query(values, rest) == Meaning(values, Segments(rest, '&'))
    decreases |rest|
  {
    var n, segments := Index(rest, '&'), Segments(rest, '&');
    FirstField(values, rest);
    QueryStep(values, rest, n, Field(values, rest, n));
    if n < |rest| {
      assert segments[1..] == Segments(rest[n + 1..], '&');
      QueryMeans(Field(values, rest, n), rest[n + 1..]);
    } else {
      assert segments[1..] == [];
    }
  }

  // ---- Wild views ----

  ghost predicate AnyWild(values: Values) {
    exists key :: key in values && values[key].Wild?
  }

  /** Entries with text have keys of their own field; only wild ones have a '&' in their key. */
  predicate Tame(values: Values) {
    forall key :: key in values ==> (values[key].Wild? <==> '&' in key)
  }

  lemma StrayKeySpans(segment: string, more: seq<string>)
    requires '=' !in segment && HasDelimiter(more)
    ensures '&' in StrayKey([segment] + more)
  {
    assert more != [] && ([segment] + more)[1..] == more;
    var joined := Join([segment] + more, '&');
    assert joined == segment + ['&'] + Join(more, '&');
    assert joined[..|segment|] == segment;
    IndexOf(joined, segment, |segment|);
    assert Index(joined, '=') != |segment|;
    assert StrayKey([segment] + more)[|segment|] == '&';
  }

  lemma EntryTame(values: Values, segment: string, more: seq<string>)
    requires Tame(values) && '&' !in segment
    ensures Tame(Entry(values, segment, more))
    ensures AnyWild(Entry(values, segment, more)) <==> AnyWild(values) || ('=' !in segment && HasDelimiter(more))
  {
    var eq := Index(segment, '=');
    if eq == |segment| && HasDelimiter(more) {
      assert '=' !in segment;
      StrayKeySpans(segment, more);
      var key := StrayKey([segment] + more);
      assert key in Entry(values, segment, more) && Entry(values, segment, more)[key].Wild?;
    } else {
      EntryKeeps(values, segment, more);
    }
  }

  lemma TextIsTame(values: Values, key: string, text: string)
    requires Tame(values) && '&' !in key
    ensures Tame(Emplace(values, key, Text(text)))
    ensures AnyWild(Emplace(values, key, Text(text))) <==> AnyWild(values)
  {
    var after := Emplace(values, key, Text(text));
    if k :| k in values && values[k].Wild? {
      assert k in after && after[k].Wild?;
    }
    if k :| k in after && after[k].Wild? {
      assert k in values && values[k].Wild?;
    }
  }

  lemma EntryKeeps(values: Values, segment: string, more: seq<string>)
    requires Tame(values) && '&' !in segment && (Index(segment, '=') < |segment| || !HasDelimiter(more))
    ensures Tame(Entry(values, segment, more))
    ensures AnyWild(Entry(values, segment, more)) <==> AnyWild(values)
    ensures !('=' !in segment && HasDelimiter(more))
  {
    var eq := Index(segment, '=');
    if 0 < eq < |segment| - 1 {
      TextIsTame(values, segment[..eq], segment[eq + 1..]);
    }
  }

  lemma {:induction false} MeaningTame(values: Values, segments: seq<string>)
    requires Tame(values) && forall i :: 0 <= i < |segments| ==> '&' !in segments[i]
    ensures AnyWild(Meaning(values, segments)) <==> AnyWild(values) || Strays(segments)
    decreases |segments|
  {
    if segments != [] {
      EntryTame(values, segments[0], segments[1..]);
      MeaningTame(Entry(values, segments[0], segments[1..]), segments[1..]);
      StraysStep(segments);
    }
  }

  lemma {:induction false} SegmentsFree(s: string, delimiter: char)
    ensures forall i :: 0 <= i < |Segments(s, delimiter)| ==> delimiter !in Segments(s, delimiter)[i]
    decreases |s|
  {
    var n := Index(s, delimiter);
    if n < |s| {
      SegmentsFree(s[n + 1..], delimiter);
      assert delimiter !in s[..n];
    }
  }

  /** For every request: the parse makes a wild view if and only if a field without '=' is followed by one that has
      it. */
  lemma WildExactly(rest: string)
    ensures AnyWild(Query(map[], rest)) <==> Strays(Segments(rest, '&'))
  {
    QueryMeans(map[], rest);
    SegmentsFree(rest, '&');
    MeaningTame(map[], Segments(rest, '&'));
  }

  // ---- Round trip ----

  datatype Pair = Pair(key: string, value: string)

  predicate Printable(pairs: seq<Pair>) {
    forall i :: 0 <= i < |pairs| ==>
      && pairs[i].key != "" && '=' !in pairs[i].key && '&' !in pairs[i].key
      && pairs[i].value != "" && '&' !in pairs[i].value
  }

  function PrintPairs(pairs: seq<Pair>): seq<string> {
    seq(|pairs|, i requires 0 <= i < |pairs| => pairs[i].key + "=" + pairs[i].value)
  }

  /** A path without '?' and any list of fields. */
  function Print(path: string, pairs: seq<Pair>): string {
    path + "?" + Join(PrintPairs(pairs), '&')
  }

  /** The value of the first pair with a key. */
  predicate First(pairs: seq<Pair>, i: nat) {
    i < |pairs| && forall j :: 0 <= j < i ==> pairs[j].key != pairs[i].key
  }

  ghost predicate FirstValues(values: Values, pairs: seq<Pair>) {
    && (forall key :: key in values <==> exists i :: 0 <= i < |pairs| && pairs[i].key == key)
    && forall i :: 0 <= i < |pairs| && First(pairs, i) ==> values[pairs[i].key] == Text(pairs[i].value)
  }

  lemma {:induction false} SegmentsOfJoin(tokens: seq<string>, delimiter: char)
    requires tokens != [] && forall i :: 0 <= i < |tokens| ==> delimiter !in tokens[i]
    ensures Segments(Join(tokens, delimiter), delimiter) == tokens
  {
    var s, n := Join(tokens, delimiter), |tokens[0]|;
    if |tokens| == 1 {
      assert s[..n] == s;
      IndexOfFirst(s, delimiter, n);
    } else {
      assert s[..n] == tokens[0] && s[n + 1..] == Join(tokens[1..], delimiter);
      IndexOfFirst(s, delimiter, n);
      SegmentsOfJoin(tokens[1..], delimiter);
    }
  }

  lemma PairMeans(values: Values, pair: Pair, more: seq<string>)
    requires Printable([pair])
    ensures Entry(values, pair.key + "=" + pair.value, more) == Emplace(values, pair.key, Text(pair.value))
  {
    assert [pair][0] == pair;
    var text, eq := pair.key + "=" + pair.value, |pair.key|;
    assert text[..eq] == pair.key && text[eq + 1..] == pair.value;
    IndexOfFirst(text, '=', eq);
  }

  /** Printed pairs take effect one after the other. */
  function Emplaced(values: Values, pairs: seq<Pair>): Values
    decreases |pairs|
  {
    if pairs == [] then values else Emplaced(Emplace(values, pairs[0].key, Text(pairs[0].value)), pairs[1..])
  }

  lemma {:induction false} PairsMean(values: Values, pairs: seq<Pair>)
    requires Printable(pairs)
    ensures Meaning(values, PrintPairs(pairs)) == Emplaced(values, pairs)
    decreases |pairs|
  {
    if pairs != [] {
      assert Printable([pairs[0]]) && Printable(pairs[1..]);
      PairMeans(values, pairs[0], PrintPairs(pairs)[1..]);
      assert PrintPairs(pairs)[1..] == PrintPairs(pairs[1..]);
      PairsMean(Emplace(values, pairs[0].key, Text(pairs[0].value)), pairs[1..]);
    }
  }

  lemma {:induction false} EmplacedLast(values: Values, pairs: seq<Pair>, pair: Pair)
    ensures Emplaced(values, pairs + [pair]) == Emplace(Emplaced(values, pairs), pair.key, Text(pair.value))
    decreases |pairs|
  {
    if pairs == [] {
      assert pairs + [pair] == [pair] && [pair][1..] == [];
    } else {
      assert (pairs + [pair])[0] == pairs[0] && (pairs + [pair])[1..] == pairs[1..] + [pair];
      EmplacedLast(Emplace(values, pairs[0].key, Text(pairs[0].value)), pairs[1..], pair);
    }
  }

  lemma {:induction false} EmplacedFirst(pairs: seq<Pair>)
    ensures FirstValues(Emplaced(map[], pairs), pairs)
  {
    if pairs != [] {
      var earlier, last := pairs[..|pairs| - 1], pairs[|pairs| - 1];
      assert pairs == earlier + [last];
      EmplacedFirst(earlier);
      EmplacedLast(map[], earlier, last);
      FirstValuesStep(Emplaced(map[], earlier), earlier, last);
    }
  }

  lemma KeysStep(values: Values, pairs: seq<Pair>, pair: Pair, key: string)
    requires key in values <==> exists i :: 0 <= i < |pairs| && pairs[i].key == key
    ensures key in Emplace(values, pair.key, Text(pair.value)) <==>
            exists i :: 0 <= i < |pairs + [pair]| && (pairs + [pair])[i].key == key
  {
    var all := pairs + [pair];
    if key in values {
      var i :| 0 <= i < |pairs| && pairs[i].key == key;
      assert all[i].key == key;
    }
    if key == pair.key {
      assert all[|pairs|].key == key;
    }
    if i :| 0 <= i < |all| && all[i].key == key {
      assert i < |pairs| ==> pairs[i].key == key;
    }
  }

  lemma FirstStep(values: Values, pairs: seq<Pair>, pair: Pair, i: nat)
    requires FirstValues(values, pairs) && First(pairs + [pair], i)
    ensures var all := pairs + [pair];
            all[i].key in Emplace(values, pair.key, Text(pair.value))
            && Emplace(values, pair.key, Text(pair.value))[all[i].key] == Text(all[i].value)
  {
    var all := pairs + [pair];
    assert forall j :: 0 <= j < |pairs| ==> all[j] == pairs[j];
    if i < |pairs| {
      assert First(pairs, i);
    } else {
      assert forall j :: 0 <= j < |pairs| ==> pairs[j].key != pair.key;
    }
  }

  lemma FirstValuesStep(values: Values, pairs: seq<Pair>, pair: Pair)
    requires FirstValues(values, pairs)
    ensures FirstValues(Emplace(values, pair.key, Text(pair.value)), pairs + [pair])
  {
    forall key
      ensures key in Emplace(values, pair.key, Text(pair.value)) <==>
              exists i :: 0 <= i < |pairs + [pair]| && (pairs + [pair])[i].key == key
    {
      KeysStep(values, pairs, pair, key);
    }
    forall i | 0 <= i < |pairs + [pair]| && First(pairs + [pair], i)
      ensures Emplace(values, pair.key, Text(pair.value))[(pairs + [pair])[i].key] == Text((pairs + [pair])[i].value)
    {
      FirstStep(values, pairs, pair, i);
    }
  }

  /** Printing a path without '?' and any list of fields, with keys that are not empty and free of '=' and '&' and
      values that are not empty and free of '&', then parsing, gives back the path and the first value of each key. */
  lemma PrintThenParse(path: string, pairs: seq<Pair>)
    requires '?' !in path && Printable(pairs)
    ensures var uri := Print(path, pairs);
            && Index(uri, '?') == |path| && uri[..Index(uri, '?')] == path
            && FirstValues(Query(map[], uri[Index(uri, '?') + 1..]), pairs)
  {
    var uri, tokens := Print(path, pairs), PrintPairs(pairs);
    assert uri[..|path|] == path;
    IndexOfFirst(uri, '?', |path|);
    assert uri[|path| + 1..] == Join(tokens, '&');
    if pairs == [] {
      assert Query(map[], "") == map[];
    } else {
      SegmentsOfJoin(tokens, '&');
      QueryMeans(map[], Join(tokens, '&'));
      PairsMean(map[], pairs);
      EmplacedFirst(pairs);
    }
  }
}
