/** The URL-encoded form decoder (parseForm): the body is split on '&',
    empty segments are skipped, and every other segment must split on '='
    into exactly a key and a value, or the whole decode aborts. Nothing is
    percent-decoded. */
module FormDecoder {
  import opened Wrappers
  import opened GoStrings
  import opened Attributes

  /** The key and value of one segment: the pieces of strings.Split(pair, "=")
      when there are exactly two of them. */
  function KeyValue(pair: string): (kv: Option<(string, string)>)
    ensures kv.Some? <==> Count(pair, '=') == 1
    ensures kv.Some? ==> pair == kv.value.0 + "=" + kv.value.1
    ensures kv.Some? ==> '=' !in kv.value.0 && '=' !in kv.value.1
  {
    SplitInTwo(pair, '=');
    var parts := Split(pair, '=');
    if |parts| == 2 then Some((parts[0], parts[1])) else None
  }

  /** Every non-empty segment holds exactly one '='. */
  predicate WellFormed(segs: seq<string>)
  {
    forall i :: 0 <= i < |segs| && segs[i] != [] ==> Count(segs[i], '=') == 1
  }

  /** The non-empty segments, in their order. */
  function NonEmpty(segs: seq<string>): (r: seq<string>)
    ensures forall i :: 0 <= i < |r| ==> r[i] != []
    ensures forall s :: s in r <==> s in segs && s != []
    ensures multiset(r) == multiset(segs)[[] := 0]
  {
    if segs == [] then []
    else
      var last := segs[|segs| - 1];
      assert segs == segs[..|segs| - 1] + [last];
      NonEmpty(segs[..|segs| - 1]) + (if last == [] then [] else [last])
  }

  /** What the loop of parseForm computes from the segments it has seen so
      far: the attributes of the non-empty segments, or the first malformed one. */
  function DecodeSegments(lookups: Lookups, segs: seq<string>): (r: Result<seq<Attribute>, ExtractionError>)
    ensures r.Ok? ==> |r.value| <= |segs|
    ensures r.Err? ==> r.error.InvalidFormat? && r.error.pair in segs && r.error.pair != []
  {
    if segs == [] then Ok([])
    else
      var last := segs[|segs| - 1];
      match DecodeSegments(lookups, segs[..|segs| - 1])
      case Err(e) => Err(e)
      case Ok(attrs) =>
        if last == [] then Ok(attrs)
        else
          match KeyValue(last)
          case None => Err(InvalidFormat(last))
          case Some(kv) => Ok(attrs + [AttributeOf(lookups, kv.0, kv.1)])
  }

  /** parseForm(body) as a value. */
  function DecodeForm(lookups: Lookups, body: string): (r: Result<seq<Attribute>, ExtractionError>)
    ensures r.Ok? ==> |r.value| <= Count(body, '&') + 1
    ensures r.Err? ==> r.error.InvalidFormat? && r.error.pair != [] && '&' !in r.error.pair
  {
    SplitLength(body, '&');
    SplitPiecesFree(body, '&');
    DecodeSegments(lookups, Split(body, '&'))
  }

  /** Both decodes succeed and their lists are concatenated, or the first
      error in document order wins. */
  function Sequence(r1: Result<seq<Attribute>, ExtractionError>, r2: Result<seq<Attribute>, ExtractionError>): Result<seq<Attribute>, ExtractionError>
  {
    match r1
    case Err(e) => Err(e)
    case Ok(a1) =>
      match r2
      case Err(e) => Err(e)
      case Ok(a2) => Ok(a1 + a2)
  }

  /** Keeping the non-empty segments of two runs one after the other. */
  lemma {:induction false} NonEmptyAppend(s: seq<string>, t: seq<string>)
    ensures NonEmpty(s + t) == NonEmpty(s) + NonEmpty(t)
  {
    if t == [] {
      assert s + t == s;
    } else {
      var t', last := t[..|t| - 1], t[|t| - 1];
      assert (s + t)[..|s + t| - 1] == s + t';
      assert (s + t)[|s + t| - 1] == last;
      NonEmptyAppend(s, t');
    }
  }

  /** The decode succeeds exactly when every non-empty segment holds one
      '='; then it yields one attribute per non-empty segment, in order, named
      by the text before the '=' and valued by the text after it. */
  lemma {:induction false} DecodeSegmentsShape(lookups: Lookups, segs: seq<string>)
    ensures DecodeSegments(lookups, segs).Ok? <==> WellFormed(segs)
    ensures DecodeSegments(lookups, segs).Ok? ==>
      var attrs, ne := DecodeSegments(lookups, segs).value, NonEmpty(segs);
      |attrs| == |ne| &&
      forall i :: 0 <= i < |ne| ==>
        KeyValue(ne[i]).Some? && attrs[i] == AttributeOf(lookups, KeyValue(ne[i]).value.0, KeyValue(ne[i]).value.1)
  {
    if segs != [] {
      var init, last := segs[..|segs| - 1], segs[|segs| - 1];
      DecodeSegmentsShape(lookups, init);
      assert WellFormed(segs) <==> WellFormed(init) && (last == [] || Count(last, '=') == 1) by {
        if WellFormed(init) && (last == [] || Count(last, '=') == 1) {
          forall i | 0 <= i < |segs| && segs[i] != []
            ensures Count(segs[i], '=') == 1
          {
            if i < |init| { assert segs[i] == init[i]; }
          }
        }
        if WellFormed(segs) {
          forall i | 0 <= i < |init| && init[i] != []
            ensures Count(init[i], '=') == 1
          {
            assert init[i] == segs[i];
          }
          assert segs[|segs| - 1] == last;
        }
      }
    }
  }

  /** A failed decode reports the first malformed non-empty segment, and
      returns no attributes at all. */
  lemma {:induction false} DecodeSegmentsFirstError(lookups: Lookups, segs: seq<string>) returns (i: nat)
    requires !WellFormed(segs)
    ensures i < |segs| && segs[i] != [] && Count(segs[i], '=') != 1
    ensures WellFormed(segs[..i])
    ensures DecodeSegments(lookups, segs) == Err(InvalidFormat(segs[i]))
  {
    var init, last := segs[..|segs| - 1], segs[|segs| - 1];
    if WellFormed(init) {
      DecodeSegmentsShape(lookups, init);
      i := |segs| - 1;
      assert segs[..i] == init;
      if last == [] || Count(last, '=') == 1 {
        forall j | 0 <= j < |segs| && segs[j] != []
          ensures Count(segs[j], '=') == 1
        {
          if j < |init| { assert segs[j] == init[j]; }
        }
        assert false;
      }
    } else {
      i := DecodeSegmentsFirstError(lookups, init);
      assert segs[..i] == init[..i];
      assert segs[i] == init[i];
    }
  }

  /** Decoding two runs of segments one after the other. */
  lemma {:induction false} DecodeSegmentsAppend(lookups: Lookups, s: seq<string>, t: seq<string>)
    ensures DecodeSegments(lookups, s + t) == Sequence(DecodeSegments(lookups, s), DecodeSegments(lookups, t))
  {
    if t == [] {
      assert s + t == s;
      match DecodeSegments(lookups, s)
      case Ok(a) => assert a + [] == a;
      case Err(_) =>
    } else {
      var t', last := t[..|t| - 1], t[|t| - 1];
      assert (s + t)[..|s + t| - 1] == s + t';
      assert (s + t)[|s + t| - 1] == last;
      DecodeSegmentsAppend(lookups, s, t');
      match DecodeSegments(lookups, s)
      case Err(_) =>
      case Ok(a1) =>
        match DecodeSegments(lookups, t')
        case Err(_) =>
        case Ok(a2) =>
          if last != [] && KeyValue(last).Some? {
            var x := AttributeOf(lookups, KeyValue(last).value.0, KeyValue(last).value.1);
            assert a1 + (a2 + [x]) == (a1 + a2) + [x];
          }
    }
  }

  /** An empty body decodes to no attributes and no error. */
  lemma EmptyBody(lookups: Lookups)
    ensures DecodeForm(lookups, "") == Ok([])
  {
    var segs := Split("", '&');
    assert segs == [[]];
    assert segs[..0] == [];
    assert DecodeSegments(lookups, segs[..0]) == Ok([]);
  }

  /** The attributes of `a&b` are those of `a` followed by those of `b`. */
  lemma {:induction false} FormAppend(lookups: Lookups, a: string, b: string)
    ensures DecodeForm(lookups, a + "&" + b) == Sequence(DecodeForm(lookups, a), DecodeForm(lookups, b))
  {
    SplitAppend(a, b, '&');
    DecodeSegmentsAppend(lookups, Split(a, '&'), Split(b, '&'));
  }

  /** A trailing '&' and a doubled '&&' add no attributes. */
  lemma {:induction false} EmptySegmentsIgnored(lookups: Lookups, a: string, b: string)
    ensures DecodeForm(lookups, a + "&") == DecodeForm(lookups, a)
    ensures DecodeForm(lookups, a + "&&" + b) == DecodeForm(lookups, a + "&" + b)
  {
    EmptyBody(lookups);
    FormAppend(lookups, a, "");
    assert a + "&" + "" == a + "&";
    match DecodeForm(lookups, a) {
      case Ok(x) => assert x + [] == x;
      case Err(_) =>
    }
    FormAppend(lookups, a + "&", b);
    FormAppend(lookups, a, b);
    assert a + "&" + "&" + b == a + "&&" + b;
  }

  /** Two pairs decode to two attributes, in order. */
  lemma {:induction false} TwoPairsExample(lookups: Lookups)
    ensures DecodeForm(lookups, "a=1&b=2") == Ok([AttributeOf(lookups, "a", "1"), AttributeOf(lookups, "b", "2")])
  {
    assert "a=1&b=2" == "a=1" + "&" + "b=2";
    FormAppend(lookups, "a=1", "b=2");
    assert "a" + "=" + "1" == "a=1" && "b" + "=" + "2" == "b=2";
    SinglePair(lookups, "a", "1");
    SinglePair(lookups, "b", "2");
    assert [AttributeOf(lookups, "a", "1")] + [AttributeOf(lookups, "b", "2")]
        == [AttributeOf(lookups, "a", "1"), AttributeOf(lookups, "b", "2")];
  }

  /** A segment without '=' aborts the decode, whatever came before it. */
  lemma {:induction false} MissingEqualsExample(lookups: Lookups)
    ensures DecodeForm(lookups, "a=1&b") == Err(InvalidFormat("b"))
  {
    assert "a=1&b" == "a=1" + "&" + "b";
    FormAppend(lookups, "a=1", "b");
    assert "a" + "=" + "1" == "a=1";
    SinglePair(lookups, "a", "1");
    var segs := Split("b", '&');
    assert segs == ["b"] by { SplitWithout("b", '&'); }
    assert Split("b", '=') == ["b"] by { SplitWithout("b", '='); }
    assert segs[..0] == [];
    assert DecodeSegments(lookups, segs[..0]) == Ok([]);
    assert KeyValue("b") == None;
    assert DecodeForm(lookups, "b") == Err(InvalidFormat("b"));
  }

  /** Only the number of '=' is checked: the key and the value may be empty. */
  lemma {:induction false} EmptyKeyAndValueExample(lookups: Lookups)
    ensures DecodeForm(lookups, "=") == Ok([AttributeOf(lookups, "", "")])
  {
    assert "" + "=" + "" == "=";
    SinglePair(lookups, "", "");
  }

  /** A body made of one pair `key=value`. */
  lemma {:induction false} SinglePair(lookups: Lookups, key: string, value: string)
    requires '=' !in key && '=' !in value && '&' !in key && '&' !in value
    ensures DecodeForm(lookups, key + "=" + value) == Ok([AttributeOf(lookups, key, value)])
  {
    var pair := key + "=" + value;
    assert '&' !in pair;
    SplitWithout(pair, '&');
    var segs := Split(pair, '&');
    assert segs[..0] == [];
    assert DecodeSegments(lookups, segs[..0]) == Ok([]);
    SplitAppend(key, value, '=');
    SplitWithout(key, '=');
    SplitWithout(value, '=');
    assert Split(pair, '=') == [key, value];
    assert segs == [pair];
    assert pair != [];
    assert KeyValue(pair) == Some((key, value));
    assert DecodeSegments(lookups, segs) == Ok([] + [AttributeOf(lookups, key, value)]);
    assert [] + [AttributeOf(lookups, key, value)] == [AttributeOf(lookups, key, value)];
    assert DecodeForm(lookups, pair) == DecodeSegments(lookups, segs);
  }

  /** parseForm: the loop over the '&'-separated segments. */
  method ParseForm(lookups: Lookups, body: string) returns (r: Result<seq<Attribute>, ExtractionError>)
    ensures r == DecodeForm(lookups, body)
  {
    var pairs := Split(body, '&');
    var attrs: seq<Attribute> := [];
    var i := 0;
    while i < |pairs|
      invariant 0 <= i <= |pairs|
      invariant DecodeSegments(lookups, pairs[..i]) == Ok(attrs)
    {
      var pair := pairs[i];
      assert pairs[..i + 1][..i] == pairs[..i];
      if |pair| == 0 {
        i := i + 1;
        continue;
      }
      var kv := Split(pair, '=');
      if |kv| != 2 {
        assert pairs == pairs[..i + 1] + pairs[i + 1..];
        DecodeSegmentsAppend(lookups, pairs[..i + 1], pairs[i + 1..]);
        return Err(InvalidFormat(pair));
      }
      var key, val := kv[0], kv[1];
      attrs := attrs + [AttributeOf(lookups, key, val)];
      i := i + 1;
    }
    assert pairs[..i] == pairs;
    return Ok(attrs);
  }
}
