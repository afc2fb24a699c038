// The query-string builder of the client, read back by splitting on the delimiters.
module Query {
  import opened Strings
  import opened Url

  type Param = (ByteString, ByteString)

  // Parameters without a value are left out.
  function NonEmpty(params: seq<Param>): seq<Param> {
    if params == [] then []
    else
      var last := params[|params| - 1];
      NonEmpty(params[..|params| - 1]) + if last.1 == [] then [] else [last]
  }

  lemma NonEmptyNext(params: seq<Param>, p: Param)
    ensures NonEmpty(params + [p]) == NonEmpty(params) + if p.1 == [] then [] else [p]
  {
    assert (params + [p])[..|params|] == params;
  }

  // Exactly the parameters with a value are kept, all of them and in order: the filter works on every
  // parameter for itself.
  lemma {:induction false} NonEmptyAppend(a: seq<Param>, b: seq<Param>)
    ensures NonEmpty(a + b) == NonEmpty(a) + NonEmpty(b)
  {
    hide NonEmpty;
    if b == [] {
      assert a + b == a;
      NoParameters();
    } else {
      var init, last := b[..|b| - 1], b[|b| - 1];
      NonEmptyAppend(a, init);
      NonEmptyNext(init, last);
      NonEmptyNext(a + init, last);
      assert b == init + [last] && a + b == a + init + [last];
    }
  }

  lemma NoParameters()
    ensures NonEmpty([]) == []
  {
  }

  lemma OneParameter(p: Param)
    ensures NonEmpty([p]) == if p.1 == "" then [] else [p]
  {
    NoParameters();
    NonEmptyNext([], p);
    assert [] + [p] == [p];
  }

  function Field(p: Param): string {
    PercentEncode(p.0) + "=" + PercentEncode(p.1)
  }

  function FieldList(params: seq<Param>): (fields: seq<string>)
    ensures |fields| == |params| && forall k :: 0 <= k < |params| ==> fields[k] == Field(params[k])
  {
    seq(|params|, i requires 0 <= i < |params| => Field(params[i]))
  }

  // The URL with one '?', unless it has one already, and the fields with '&' between them.
  function Glue(url: string, fields: seq<string>): string {
    if fields == [] then url
    else url + [if '?' in url then '&' else '?'] + Join(fields, '&')
  }

  function WithQuery(url: string, params: seq<Param>): string {
    Glue(url, FieldList(NonEmpty(params)))
  }

  method AppendQuery(base: string, params: seq<Param>) returns (url: string)
    ensures url == WithQuery(base, params)
  {
    hide WithQuery, PercentEncode;
    NothingAppended(base);
    url := base;
    var first := '?' !in url;
    for i := 0 to |params|
      invariant url == WithQuery(base, params[..i])
      invariant first == ('?' !in url)
    {
      WithQueryNext(base, params, i);
      var param := params[i];
      if param.1 == [] {
        continue;
      }
      FieldHasNoDelimiter(param);
      url := url + if first then "?" else "&";
      first := false;
      var key := PercentEncoder(param.0);
      url := url + key;
      url := url + "=";
      var value := PercentEncoder(param.1);
      url := url + value;
    }
    assert params[..|params|] == params;
  }

  lemma NoDelimiters(x: ByteString)
    ensures forall c :: c in PercentEncode(x) ==> c != '?' && c != '&' && c != '='
  {
    hide PercentEncode;
    PercentAlphabet(x);
  }

  lemma FieldHasNoDelimiter(p: Param)
    ensures '?' !in Field(p) && '&' !in Field(p)
  {
    NoDelimiters(p.0);
    NoDelimiters(p.1);
  }

  lemma {:induction false} JoinCharacters(fields: seq<string>, c: char)
    requires c != '&' && forall f :: f in fields ==> c !in f
    ensures c !in Join(fields, '&')
  {
    if |fields| > 1 {
      JoinCharacters(fields[..|fields| - 1], c);
    }
  }

  lemma NothingAppended(url: string)
    ensures WithQuery(url, []) == url
  {
  }

  lemma PlainFields(params: seq<Param>)
    ensures forall f :: f in FieldList(params) ==> '?' !in f && '&' !in f
  {
    hide Field;
    forall f | f in FieldList(params) ensures '?' !in f && '&' !in f {
      var k :| 0 <= k < |params| && FieldList(params)[k] == f;
      FieldHasNoDelimiter(params[k]);
    }
  }

  // A URL that has got fields has got its '?'.
  lemma GlueMarked(url: string, fields: seq<string>)
    requires forall f :: f in fields ==> '?' !in f
    ensures '?' in Glue(url, fields) <==> '?' in url || fields != []
  {
    JoinCharacters(fields, '?');
    if fields != [] {
      assert Glue(url, fields)[|url|] == if '?' in url then '&' else '?';
      if '?' in url {
        var k :| 0 <= k < |url| && url[k] == '?';
        assert Glue(url, fields)[k] == '?';
      }
    }
  }

  lemma GlueNext(url: string, fields: seq<string>, f: string)
    requires forall g :: g in fields ==> '?' !in g
    ensures var u := Glue(url, fields);
            Glue(url, fields + [f]) == u + (if '?' in u then "&" else "?") + f
  {
    GlueMarked(url, fields);
    assert (fields + [f])[..|fields|] == fields;
    if fields == [] {
      assert Join([f], '&') == f;
    } else {
      var mark := [if '?' in url then '&' else '?'];
      assert Join(fields + [f], '&') == Join(fields, '&') + ['&'] + f;
      assert url + mark + (Join(fields, '&') + ['&'] + f) == url + mark + Join(fields, '&') + ['&'] + f;
    }
  }

  lemma WithQueryNext(url: string, params: seq<Param>, i: nat)
    requires i < |params|
    ensures var u, p := WithQuery(url, params[..i]), params[i];
            WithQuery(url, params[..i + 1]) ==
            if p.1 == [] then u else u + (if '?' in u then "&" else "?") + Field(p)
  {
    hide Glue, Field;
    assert params[..i + 1][..i] == params[..i];
    var done, p := NonEmpty(params[..i]), params[i];
    if p.1 == [] {
      assert NonEmpty(params[..i + 1]) == done;
    } else {
      assert NonEmpty(params[..i + 1]) == done + [p];
      assert FieldList(done + [p]) == FieldList(done) + [Field(p)];
      PlainFields(done);
      GlueNext(url, FieldList(done), Field(p));
    }
  }

  // ---------------------------------------------------------------- composition

  // Adding parameters in two calls is adding them in one, for every URL and all lists.
  lemma {:induction false} Composition(url: string, a: seq<Param>, b: seq<Param>)
    ensures WithQuery(WithQuery(url, a), b) == WithQuery(url, a + b)
  {
    hide WithQuery, Field;
    if b == [] {
      assert a + b == a;
      NothingAppended(WithQuery(url, a));
    } else {
      var init, n := b[..|b| - 1], |b| - 1;
      Composition(url, a, init);
      WithQueryNext(WithQuery(url, a), b, n);
      WithQueryNext(url, a + b, |a| + n);
      assert b[..n + 1] == b && (a + b)[..|a| + n] == a + init && (a + b)[..|a| + n + 1] == a + b;
    }
  }

  // ---------------------------------------------------------------- reading the query back

  // The part of `s` before, and the part behind, the first occurrence of `c`.
  function Before(s: string, c: char): string {
    if s == [] || s[0] == c then [] else [s[0]] + Before(s[1..], c)
  }

  function Behind(s: string, c: char): string {
    if s == [] then [] else if s[0] == c then s[1..] else Behind(s[1..], c)
  }

  lemma {:induction false} CutAppend(s: string, c: char, rest: string)
    ensures c in s ==> Before(s + rest, c) == Before(s, c) && Behind(s + rest, c) == Behind(s, c) + rest
    ensures c !in s ==> Before(s + [c] + rest, c) == s && Behind(s + [c] + rest, c) == rest
  {
    if s != [] {
      assert (s + rest)[1..] == s[1..] + rest;
      assert (s + [c] + rest)[1..] == s[1..] + [c] + rest;
      CutAppend(s[1..], c, rest);
    }
  }

  function FieldsOf(url: string): seq<string> {
    if '?' in url then Split(Behind(url, '?'), '&') else []
  }

  function ParseField(field: string): Option<Param> {
    if '=' !in field then None
    else
      var key, value := PercentDecode(Before(field, '=')), PercentDecode(Behind(field, '='));
      if key.Some? && value.Some? then Some((key.value, value.value)) else None
  }

  function ParseFields(fields: seq<string>): (params: seq<Option<Param>>)
    ensures |params| == |fields|
    ensures forall k :: 0 <= k < |fields| ==> params[k] == ParseField(fields[k])
  {
    seq(|fields|, i requires 0 <= i < |fields| => ParseField(fields[i]))
  }

  function Present(params: seq<Param>): (r: seq<Option<Param>>)
    ensures |r| == |params| && forall k :: 0 <= k < |r| ==> r[k] == Some(params[k])
  {
    seq(|params|, i requires 0 <= i < |params| => Some(params[i]))
  }

  lemma FieldRoundTrip(p: Param)
    ensures ParseField(Field(p)) == Some(p)
  {
    NoDelimiters(p.0);
    CutAppend(PercentEncode(p.0), '=', PercentEncode(p.1));
    PercentRoundTrip(p.0);
    PercentRoundTrip(p.1);
  }

  lemma GlueCut(url: string, fields: seq<string>)
    requires fields != []
    requires forall f :: f in fields ==> '?' !in f && '&' !in f
    ensures FieldsOf(Glue(url, fields)) == FieldsOf(url) + fields
    ensures Before(Glue(url, fields), '?') == Before(url, '?')
  {
    GlueMarked(url, fields);
    var text := Join(fields, '&');
    if '?' in url {
      CutAppend(url, '?', ['&'] + text);
      assert url + ['&'] + text == url + (['&'] + text);
      assert Behind(url, '?') + (['&'] + text) == Behind(url, '?') + ['&'] + text;
      SplitAppendJoin(Behind(url, '?'), fields, '&');
    } else {
      CutAppend(url, '?', text);
      BeforeAll(url, '?');
      SplitJoin(fields, '&');
    }
  }

  // Whatever the URL holds already, its fields stay and the new ones follow, one for each
  // parameter with a value; the part before the '?' never changes.
  lemma FieldsAppended(url: string, params: seq<Param>)
    ensures FieldsOf(WithQuery(url, params)) == FieldsOf(url) + FieldList(NonEmpty(params))
    ensures Before(WithQuery(url, params), '?') == Before(url, '?')
  {
    hide FieldsOf, Before;
    var fields := FieldList(NonEmpty(params));
    PlainFields(NonEmpty(params));
    if fields != [] {
      GlueCut(url, fields);
    }
  }

  lemma {:induction false} BeforeAll(s: string, c: char)
    requires c !in s
    ensures Before(s, c) == s
  {
    if s != [] {
      BeforeAll(s[1..], c);
    }
  }

  lemma ParseOfFields(params: seq<Param>)
    ensures ParseFields(FieldList(params)) == Present(params)
  {
    hide Field, ParseField;
    forall k | 0 <= k < |params| ensures ParseField(Field(params[k])) == Some(params[k]) {
      FieldRoundTrip(params[k]);
    }
  }

  lemma ParseAppend(a: seq<string>, b: seq<string>)
    ensures ParseFields(a + b) == ParseFields(a) + ParseFields(b)
  {
    hide ParseField;
  }

  // Reading back what was appended gives the parameters that have a value, in order.
  lemma QueryRoundTrip(url: string, params: seq<Param>)
    ensures ParseFields(FieldsOf(WithQuery(url, params))) ==
            ParseFields(FieldsOf(url)) + Present(NonEmpty(params))
    ensures '?' !in url ==>
      && ParseFields(FieldsOf(WithQuery(url, params))) == Present(NonEmpty(params))
      && Before(WithQuery(url, params), '?') == url
    ensures NonEmpty(params) == [] ==> WithQuery(url, params) == url
  {
    hide FieldList, NonEmpty, ParseFields, Before;
    FieldsAppended(url, params);
    ParseOfFields(NonEmpty(params));
    ParseAppend(FieldsOf(url), FieldList(NonEmpty(params)));
    if '?' !in url {
      BeforeAll(url, '?');
      assert ParseFields([]) + Present(NonEmpty(params)) == Present(NonEmpty(params));
    }
  }
}
