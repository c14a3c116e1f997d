/** The split of a card image URL into the object store location it names. */
module CardUrl {
  import opened Wrappers
  import opened Strings

  datatype Location = Location(bucket: string, key: string)

  const BucketMarker: string := "bucketName="
  const FileMarker: string := "&fileName="

  /** The text after the first `bucketName=` up to the next one, split at `&fileName=` into
      exactly a bucket and a key. With no `bucketName=` the indexing raises IndexError; when
      that text does not split into exactly two pieces the unpacking raises ValueError. */
  function SplitCardUrl(url: string): (r: Result<Location>)
    ensures r.Err? ==> r.error == IndexError || r.error == ValueError
    ensures r.Ok? ==> !Contains(r.value.bucket, FileMarker) && !Contains(r.value.key, FileMarker)
  {
    var parts := Split(url, BucketMarker);
    if |parts| < 2 then
      Err(IndexError)
    else
      var pieces := Split(parts[1], FileMarker);
      SplitPiecesFree(parts[1], FileMarker);
      if |pieces| != 2 then Err(ValueError) else Ok(Location(pieces[0], pieces[1]))
  }

  /** IndexError exactly when the URL has no `bucketName=` at all. */
  lemma MissingBucketMarker(url: string)
    ensures SplitCardUrl(url) == Err(IndexError) <==> !Contains(url, BucketMarker)
  {
    FindNone(url, BucketMarker);
  }

  /** A URL `p + "bucketName=" + b + "&fileName=" + k`, where no separator occurs in `p`, `b`
      or `k`, names bucket `b` and key `k`. */
  lemma WellFormedUrl(p: string, b: string, k: string)
    requires !Contains(p, BucketMarker)
    requires !Contains(b, BucketMarker) && !Contains(k, BucketMarker)
    requires !Contains(b, FileMarker) && !Contains(k, FileMarker)
    ensures SplitCardUrl(p + BucketMarker + b + FileMarker + k) == Ok(Location(b, k))
  {
    var tail := b + FileMarker + k;
    assert p + BucketMarker + b + FileMarker + k == p + BucketMarker + tail;
    NoneAcrossJoin(b, FileMarker, k, BucketMarker);
    SplitOnce(p, BucketMarker, tail);
    SplitOnce(b, FileMarker, k);
  }

  /** A URL that splits continues after its first `bucketName=` with bucket + `&fileName=` +
      key, followed by the end of the URL or another `bucketName=`. */
  lemma SplitCardUrlShape(url: string)
    requires SplitCardUrl(url).Ok?
    ensures Find(url, BucketMarker, 0).Some?
    ensures var loc := SplitCardUrl(url).value;
      var rest := url[Find(url, BucketMarker, 0).value + |BucketMarker|..];
      var named := loc.bucket + FileMarker + loc.key;
      && |named| <= |rest| && rest[..|named|] == named
      && (|named| == |rest| || OccursAt(rest, BucketMarker, |named|))
  {
    var loc := SplitCardUrl(url).value;
    var f := Split(url, BucketMarker)[1];
    SplitSecond(url, BucketMarker);
    var pieces := Split(f, FileMarker);
    SplitJoin(f, FileMarker);
    assert Join(pieces, FileMarker) == pieces[0] + FileMarker + pieces[1];
  }

  lemma UrlExample()
    ensures SplitCardUrl("https://host/view?" + BucketMarker + "autofill-worker-card-images" + FileMarker + "0001.png")
      == Ok(Location("autofill-worker-card-images", "0001.png"))
  {
    var p := "https://host/view?";
    var b := "autofill-worker-card-images";
    var k := "0001.png";
    NoFirstChar(p, BucketMarker);
    NoFirstChar(b, BucketMarker);
    NoFirstChar(k, BucketMarker);
    NoFirstChar(b, FileMarker);
    NoFirstChar(k, FileMarker);
    WellFormedUrl(p, b, k);
  }
}
