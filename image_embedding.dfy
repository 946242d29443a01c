/** `embed_imgs` and the Content-ID map it reads: an insertion-ordered
    dictionary from Content-ID to image, and one replace-all per key of every
    `cid:<id>` reference (section 2 of RFC 2392) by a `data:` URI
    (RFC 2397) holding the base64 image. */
module ImageEmbedding {
  import opened Results
  import opened Strings
  import opened Codecs
  import Base64

  /** The dict value stored per Content-ID. */
  datatype InlineImage = InlineImage(filename: Option<string>, content: seq<byte>, contentType: string)

  datatype CidEntry = CidEntry(cid: string, image: InlineImage)

  /** A Python dict: entries in insertion order. */
  type CidMap = seq<CidEntry>

  function Keys(m: CidMap): (ks: seq<string>)
    ensures |ks| == |m| && forall i | 0 <= i < |m| :: ks[i] == m[i].cid
    decreases |m|
  {
    if m == [] then [] else [m[0].cid] + Keys(m[1..])
  }

  predicate DistinctKeys(m: CidMap) {
    forall i, j | 0 <= i < j < |m| :: m[i].cid != m[j].cid
  }

  /** `m.get(k)`. */
  function Get(m: CidMap, k: string): (r: Option<InlineImage>)
    ensures r.Some? <==> k in Keys(m)
    decreases |m|
  {
    if m == [] then None else if m[0].cid == k then Some(m[0].image) else Get(m[1..], k)
  }

  /** `m[k] = v`: an existing key keeps its position, a new key goes last. */
  function Put(m: CidMap, k: string, v: InlineImage): CidMap
    decreases |m|
  {
    if m == [] then [CidEntry(k, v)]
    else if m[0].cid == k then [CidEntry(k, v)] + m[1..]
    else [m[0]] + Put(m[1..], k, v)
  }

  /** The dict laws: the key just written reads back the new value, every
      other key reads what it read before. */
  lemma {:induction false} GetPut(m: CidMap, k: string, v: InlineImage, j: string)
    ensures Get(Put(m, k, v), j) == if j == k then Some(v) else Get(m, j)
    decreases |m|
  {
    if m != [] && m[0].cid != k {
      GetPut(m[1..], k, v, j);
    }
  }

  /** Writing keeps insertion order: existing keys stay where they are, a new
      one is appended, and keys stay distinct. */
  lemma {:induction false} PutKeys(m: CidMap, k: string, v: InlineImage)
    requires DistinctKeys(m)
    ensures Keys(Put(m, k, v)) == if k in Keys(m) then Keys(m) else Keys(m) + [k]
    ensures DistinctKeys(Put(m, k, v))
    decreases |m|
  {
    if m != [] && m[0].cid != k {
      PutKeys(m[1..], k, v);
      var rest := Put(m[1..], k, v);
      assert Put(m, k, v) == [m[0]] + rest;
      assert Keys(m) == [m[0].cid] + Keys(m[1..]);
      assert m[0].cid !in Keys(m[1..]);
      assert m[0].cid !in Keys(rest);
    }
  }

  /** `data:{content_type};base64,{b64encode(content)}`. */
  function DataUri(img: InlineImage): string {
    "data:" + img.contentType + ";base64," + Base64.Encode(img.content)
  }

  /** The URI carries the image: its tail after `;base64,` decodes to the bytes. */
  lemma DataUriCarriesImage(img: InlineImage)
    ensures var head := "data:" + img.contentType + ";base64,";
      StartsWith(DataUri(img), head) && Base64.Decode(DataUri(img)[|head|..]) == Some(img.content)
  {
    var head := "data:" + img.contentType + ";base64,";
    assert DataUri(img) == head + Base64.Encode(img.content);
    assert DataUri(img)[|head|..] == Base64.Encode(img.content);
    Base64.DecodeEncode(img.content);
  }

  function Reference(cid: string): string {
    "cid:" + cid
  }

  /** The loop body applied to every entry in insertion order. */
  function EmbedAll(html: string, m: CidMap): string
    decreases |m|
  {
    if m == [] then html
    else
      var last := m[|m| - 1];
      ReplaceAll(EmbedAll(html, m[..|m| - 1]), Reference(last.cid), DataUri(last.image))
  }

  /** `embed_imgs(html_content, attachments)`. */
  function Embedded(html: string, m: CidMap): string {
    if html == "" then html else EmbedAll(html, m)
  }

  method EmbedImgs(html: string, m: CidMap) returns (r: string)
    ensures r == Embedded(html, m)
  {
    r := html;
    if html != "" {
      var i := 0;
      while i < |m|
        invariant 0 <= i <= |m|
        invariant r == EmbedAll(html, m[..i])
      {
        assert m[..i + 1][..i] == m[..i];
        r := ReplaceAll(r, Reference(m[i].cid), DataUri(m[i].image));
        i := i + 1;
      }
      assert m[..i] == m;
    }
  }

  /** Empty HTML stays empty, an empty map changes nothing. */
  lemma EmbedTrivial(html: string, m: CidMap)
    ensures Embedded("", m) == ""
    ensures Embedded(html, []) == html
  {
  }

  /** HTML that mentions none of the map's references is returned unchanged. */
  lemma {:induction false} EmbedUnreferenced(html: string, m: CidMap)
    requires forall i | 0 <= i < |m| :: !Contains(html, Reference(m[i].cid))
    ensures EmbedAll(html, m) == html
    decreases |m|
  {
    if m != [] {
      var init := m[..|m| - 1];
      assert forall i | 0 <= i < |init| :: init[i] == m[i];
      EmbedUnreferenced(html, init);
      ReplaceAllAbsent(html, Reference(m[|m| - 1].cid), DataUri(m[|m| - 1].image));
    }
  }

  /** References are matched as plain substrings: an id that extends a key
      is rewritten too, so "ids not in the map are untouched" does not hold.
      With key `img1`, the reference `cid:img10` becomes the URI of `img1`
      followed by `0`. */
  lemma PrefixReferenceRewritten()
    ensures var img := InlineImage(None, [], "image/png");
      Embedded("cid:img10", [CidEntry("img1", img)]) == "data:image/png;base64,0"
  {
    var img := InlineImage(None, [], "image/png");
    var s := "cid:img10";
    assert s[..|Reference("img1")|] == Reference("img1");
    assert s[|Reference("img1")|..] == "0";
    assert ReplaceAll("0", Reference("img1"), DataUri(img)) == "0";
    assert DataUri(img) == "data:image/png;base64,";
    assert [CidEntry("img1", img)][..0] == [];
  }
}
