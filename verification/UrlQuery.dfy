/** The parsers of 3rd_party/EdUrlParser.cpp together: a list of pairs that travels
    as the query of a URL. */
module UrlQuery {
  import opened Bytes
  import opened UrlCodec
  import opened Walks
  import opened QueryString
  import opened UrlParser

  predicate AllFree(pieces: seq<string>) {
    forall i | 0 <= i < |pieces| :: Free(pieces[i], "#")
  }

  lemma {:induction false} JoinedIsFree(pieces: seq<string>)
    requires |pieces| > 0 && AllFree(pieces)
    ensures Free(Join(pieces, '&'), "#")
  {
    if |pieces| > 1 {
      JoinedIsFree(pieces[1..]);
    }
  }

  lemma PairIsFree(p: KeyValue)
    requires AsciiPair(p)
    ensures Free(Segment(EncodePair(p)), "#")
  {
    hide Encode;
    EncodedIsFree(p.key);
    EncodedIsFree(p.val);
    assert '#' in RESERVED && '#' != '=';
  }

  lemma {:induction false} SegmentsAreFree(pairs: seq<KeyValue>)
    requires AsciiPairs(pairs)
    ensures AllFree(Segments(EncodePairs(pairs)))
  {
    hide EncodePair, Segment, AsciiPair, Free;
    if pairs != [] {
      PairIsFree(pairs[0]);
      SegmentsAreFree(pairs[1..]);
      assert EncodePairs(pairs)[1..] == EncodePairs(pairs[1..]) && EncodePairs(pairs)[0] == EncodePair(pairs[0]);
      assert Segments(EncodePairs(pairs)) == [Segment(EncodePair(pairs[0]))] + Segments(EncodePairs(pairs[1..]));
    }
  }

  /** Encoded pairs hold nothing that ends a query. */
  lemma QueryIsFree(pairs: seq<KeyValue>)
    requires pairs != [] && AsciiPairs(pairs)
    ensures Free(QueryOf(pairs), "#")
  {
    assert |EncodePairs(pairs)| > 0;
    hide Join, EncodePair, Segment, AllFree, EncodePairs;
    SegmentsAreFree(pairs);
    JoinedIsFree(Segments(EncodePairs(pairs)));
  }

  function WithPairs(u: Url, pairs: seq<KeyValue>, fragment: Option<string>): Url
    requires pairs != [] && AsciiPairs(pairs)
  {
    u.(query := Some(Query(QueryOf(pairs), fragment)))
  }

  /** In a URL whose other parts are clean, any pairs are found as its query, and
      the rest of the URL as it was. */
  lemma QueryFound(u: Url, pairs: seq<KeyValue>, fragment: Option<string>)
    requires pairs != [] && AsciiPairs(pairs) && u.query == None && Clean(Flat(u))
    ensures var f := Parse(Assemble(WithPairs(u, pairs, fragment)));
            && f.query == QueryOf(pairs) && f.fragment == UrlParser.Text("", fragment)
            && f.scheme == Flat(u).scheme && f.hostName == u.host && f.port == Flat(u).port && f.path == u.path
  {
    hide Parse, Assemble, QueryOf, Free;
    QueryIsFree(pairs);
    UrlRoundTrip(WithPairs(u, pairs, fragment));
  }

  /** Pairs written into the query of a URL, found again by parsing the URL, split
      and decoded: the list comes back exactly when the mode keeps every pair. */
  method Travel(u: Url, pairs: seq<KeyValue>, fragment: Option<string>, strict: bool)
    returns (got: seq<KeyValue>, count: nat)
    requires pairs != [] && AsciiPairs(pairs) && u.query == None && Clean(Flat(u))
    ensures got == Keep(pairs, strict) && count == |got|
    ensures strict ==> (got == pairs <==> forall i | 0 <= i < |pairs| :: pairs[i].key != "" && pairs[i].val != "")
    ensures !strict ==> (got == pairs <==> forall i | 0 <= i < |pairs| :: pairs[i].key != "" || pairs[i].val != "")
  {
    hide Keep, Kept, Items, SkipSpaces, QueryOf, AsciiPairs, EncodePairs, Assemble, UrlParser.Parse, Flat, Clean;
    var raw := BuildQuery(pairs);
    QueryFound(u, pairs, fragment);
    var url := EdUrlParser.ParseUrl(Assemble(u.(query := Some(Query(raw, fragment)))));
    var kvvec := new Collection(Vector);
    count := ParseKeyValueList(kvvec, url.query, strict);
    QueryRoundTrip(pairs, strict);
    KeepsAll(pairs, strict);
    EncodePairsAt(Keep(pairs, strict));
    assert kvvec.list == EncodePairs(Keep(pairs, strict));
    got := DecodePairs(kvvec.list, Keep(pairs, strict));
  }
}
