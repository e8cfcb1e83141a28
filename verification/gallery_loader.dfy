/**
 * Loading the gallery in script.js: classify the response to the manifest request, turn the
 * manifest into slide and dot records, and start the slideshow on them.
 */
module GalleryLoader {
  import opened Wrappers
  import opened Decimal
  import opened Manifest
  import opened Slideshow

  /** A rendered `figure.slide`: the image source and alt text, the caption text, the initial `active` class. */
  datatype Slide = Slide(src: string, alt: string, caption: string, active: bool)

  /** A rendered `button.dot`: its `data-index` attribute and initial `active` class. */
  datatype Dot = Dot(dataIndex: string, active: bool)

  /** The body of a successful response as `res.json()` reads it. */
  datatype Body = Unparseable | NotAnArray | Array(items: seq<Entry>)

  /** The settled `fetch`: a network failure, or a response with its `ok` flag, status and body. */
  datatype Response = NetworkFailure | Response(ok: bool, status: int, body: Body)

  /** What the gallery ends in: the error text left in the slide container, or a running slideshow of `n` slides. */
  datatype Outcome = Error(msg: string) | Ready(n: nat)

  const NotFoundMsg := "Unable to load photo gallery (gallery.json not found)."
  const NoImagesMsg := "No images defined in gallery.json."
  const NoValidMsg := "No valid images in gallery.json."
  const LoadErrorMsg := "Error loading photo gallery. Please try again later."

  // ---------------------------------------------------------------------------
  // The render pass
  // ---------------------------------------------------------------------------

  /** The manifest positions of the entries the render pass keeps (those with a truthy `url`), in order. */
  function AcceptedPositions(images: seq<Entry>): (ps: seq<nat>)
    ensures |ps| <= |images|
    ensures forall k :: 0 <= k < |ps| ==> ps[k] < |images| && Truthy(images[ps[k]].url)
  {
    if images == [] then []
    else
      var last := |images| - 1;
      AcceptedPositions(images[..last]) + (if Truthy(images[last].url) then [last] else [])
  }

  /** One more entry of the manifest adds its own position when its `url` is truthy. */
  lemma AcceptedStep(images: seq<Entry>, idx: nat)
    requires idx < |images|
    ensures AcceptedPositions(images[..idx + 1])
      == AcceptedPositions(images[..idx]) + (if Truthy(images[idx].url) then [idx] else [])
  {
    assert images[..idx + 1][..idx] == images[..idx];
  }

  /** Every entry with a truthy `url` is kept. */
  lemma {:induction false} AcceptedPositionsComplete(images: seq<Entry>, p: nat)
    requires p < |images| && Truthy(images[p].url)
    ensures p in AcceptedPositions(images)
  {
    var last := |images| - 1;
    if p < last {
      AcceptedPositionsComplete(images[..last], p);
      assert images[..last][p] == images[p];
    }
  }

  /** Kept entries stay in manifest order, each at most once. */
  lemma {:induction false} AcceptedPositionsIncreasing(images: seq<Entry>)
    ensures forall i, j :: 0 <= i < j < |AcceptedPositions(images)| ==>
      AcceptedPositions(images)[i] < AcceptedPositions(images)[j]
  {
    if images != [] {
      AcceptedPositionsIncreasing(images[..|images| - 1]);
    }
  }

  /** When every entry has a truthy `url`, every position is kept. */
  lemma {:induction false} AllAccepted(images: seq<Entry>)
    requires forall k :: 0 <= k < |images| ==> Truthy(images[k].url)
    ensures AcceptedPositions(images) == seq(|images|, k => k)
  {
    if images != [] {
      AllAccepted(images[..|images| - 1]);
    }
  }

  /** The slide the render pass makes for the entry at manifest position `idx`. */
  function SlideFor(e: Entry, idx: nat): (s: Slide)
    requires Truthy(e.url)
    ensures s.src == e.url.value
    ensures Truthy(e.caption) ==> s.alt == e.caption.value && s.caption == e.caption.value
    ensures !Truthy(e.caption) ==> s.alt == "Gallery photo " + NatToString(idx + 1) && s.caption == ""
    ensures s.active <==> idx == 0
  {
    Slide(e.url.value, OrElse(e.caption, "Gallery photo " + NatToString(idx + 1)), OrElse(e.caption, ""), idx == 0)
  }

  /** The dot the render pass makes for the entry at manifest position `idx`. */
  function DotFor(idx: nat): (d: Dot)
    ensures ParseInt(d.dataIndex) == Some(idx as int)
    ensures d.active <==> idx == 0
  {
    ParseIntOfNatToString(idx);
    Dot(NatToString(idx), idx == 0)
  }

  /**
   * The `images.forEach((item, idx) => ...)` pass: for each entry with a truthy `url`, append one
   * slide and one dot. Alt-text numbering and `data-index` use the manifest position `idx`.
   */
  method RenderManifest(images: seq<Entry>) returns (slides: seq<Slide>, dots: seq<Dot>)
    ensures |slides| == |dots| == |AcceptedPositions(images)|
    ensures forall k :: 0 <= k < |slides| ==>
      var p := AcceptedPositions(images)[k];
      slides[k] == SlideFor(images[p], p) && dots[k] == DotFor(p)
  {
    slides, dots := [], [];
    ghost var ps: seq<nat> := [];
    for idx := 0 to |images|
      invariant ps == AcceptedPositions(images[..idx])
      invariant |slides| == |dots| == |ps|
      invariant forall k :: 0 <= k < |ps| ==> ps[k] < idx && Truthy(images[ps[k]].url)
      invariant forall k :: 0 <= k < |ps| ==> slides[k] == SlideFor(images[ps[k]], ps[k]) && dots[k] == DotFor(ps[k])
    {
      AcceptedStep(images, idx);
      var item := images[idx];
      if !Truthy(item.url) {
        continue;
      }
      var url := item.url.value;
      var alt := if Truthy(item.caption) then item.caption.value else "Gallery photo " + NatToString(idx + 1);
      var caption := if Truthy(item.caption) then item.caption.value else "";
      slides := slides + [Slide(url, alt, caption, idx == 0)];
      dots := dots + [Dot(NatToString(idx), idx == 0)];
      ps := ps + [idx];
    }
    assert images[..|images|] == images;
  }

  // ---------------------------------------------------------------------------
  // The outcome of loading
  // ---------------------------------------------------------------------------

  /**
   * The state the page settles in for a given response. A failed request, a non-`ok` status and
   * an unparseable body all end in the `catch` handler's message (for a non-`ok` status the
   * "not found" text is written first and then replaced); a non-array or empty array gives
   * "no images defined"; an array without a truthy `url` gives "no valid images".
   */
  function LoadOutcome(resp: Response): (o: Outcome)
    ensures o.Ready? <==>
      resp.Response? && resp.ok && resp.body.Array? && |AcceptedPositions(resp.body.items)| > 0
    ensures o.Ready? ==> o.n == |AcceptedPositions(resp.body.items)|
    ensures o.Error? ==> o.msg in {LoadErrorMsg, NoImagesMsg, NoValidMsg}
    ensures o == Error(LoadErrorMsg) <==>
      resp.NetworkFailure? || !resp.ok || resp.body.Unparseable?
    ensures (resp.Response? && resp.ok
             && (resp.body.NotAnArray? || (resp.body.Array? && |resp.body.items| == 0)))
      ==> o == Error(NoImagesMsg)
    ensures (resp.Response? && resp.ok && resp.body.Array? && |resp.body.items| > 0
             && |AcceptedPositions(resp.body.items)| == 0)
      ==> o == Error(NoValidMsg)
  {
    match resp
    case NetworkFailure => Error(LoadErrorMsg)
    case Response(ok, _, body) =>
      if !ok then Error(LoadErrorMsg)
      else match body
        case Unparseable => Error(LoadErrorMsg)
        case NotAnArray => Error(NoImagesMsg)
        case Array(items) =>
          if |items| == 0 then Error(NoImagesMsg)
          else
            var n := |AcceptedPositions(items)|;
            if n == 0 then Error(NoValidMsg) else Ready(n)
  }

  /** The texts `showError` writes into the slide container, in order; the last one is what stays. */
  function ErrorsShown(resp: Response): (msgs: seq<string>)
    ensures LoadOutcome(resp).Error? <==> |msgs| > 0
    ensures |msgs| > 0 ==> LoadOutcome(resp) == Error(msgs[|msgs| - 1])
    ensures resp.Response? && !resp.ok ==> msgs == [NotFoundMsg, LoadErrorMsg]
    ensures !(resp.Response? && !resp.ok) ==> |msgs| <= 1
  {
    match resp
    case NetworkFailure => [LoadErrorMsg]
    case Response(ok, _, body) =>
      if !ok then [NotFoundMsg, LoadErrorMsg]
      else match body
        case Unparseable => [LoadErrorMsg]
        case NotAnArray => [NoImagesMsg]
        case Array(items) =>
          if |items| == 0 then [NoImagesMsg]
          else if |AcceptedPositions(items)| == 0 then [NoValidMsg]
          else []
  }

  /**
   * The fetch chain of `initDynamicGallery` after the request settles: classify the response,
   * render the manifest, and on success show slide 0 and start the rotation interval. `shown`
   * lists the texts `showError` writes into the slide container, in order.
   */
  method LoadGallery(resp: Response) returns (outcome: Outcome, gallery: Gallery?, shown: seq<string>)
    ensures outcome == LoadOutcome(resp)
    ensures shown == ErrorsShown(resp)
    ensures outcome.Ready? <==> gallery != null
    ensures gallery != null ==>
      && fresh(gallery) && fresh(gallery.slides) && fresh(gallery.dots)
      && gallery.Valid() && gallery.Aligned()
      && gallery.currentIndex == 0 && gallery.N() == outcome.n
      && gallery.autoInterval.Some? && gallery.live == {gallery.autoInterval.value}
      && |gallery.dataIndex| == |AcceptedPositions(resp.body.items)|
      && (forall k :: 0 <= k < |gallery.dataIndex| ==>
            gallery.dataIndex[k] == NatToString(AcceptedPositions(resp.body.items)[k]))
  {
    gallery := null;
    shown := [];
    match resp
    case NetworkFailure =>
      shown := shown + [LoadErrorMsg];
      outcome := Error(LoadErrorMsg);
    case Response(ok, _, body) =>
      if !ok {
        shown := shown + [NotFoundMsg];
        // the thrown error reaches the catch handler, which writes over the message
        shown := shown + [LoadErrorMsg];
        outcome := Error(LoadErrorMsg);
        return;
      }
      match body {
        case Unparseable =>
          shown := shown + [LoadErrorMsg];
          outcome := Error(LoadErrorMsg);
        case NotAnArray =>
          shown := shown + [NoImagesMsg];
          outcome := Error(NoImagesMsg);
        case Array(items) =>
          if |items| == 0 {
            shown := shown + [NoImagesMsg];
            outcome := Error(NoImagesMsg);
            return;
          }
          var slides, dots := RenderManifest(items);
          if |slides| == 0 {
            shown := shown + [NoValidMsg];
            outcome := Error(NoValidMsg);
            return;
          }
          var n := |slides|;
          var dataIndex := seq(n, k requires 0 <= k < n => dots[k].dataIndex);
          forall k | 0 <= k < n
            ensures IsDigits(dataIndex[k])
          {
            assert dataIndex[k] == NatToString(AcceptedPositions(items)[k]);
          }
          gallery := new Gallery(seq(n, k requires 0 <= k < n => slides[k].active),
                                 seq(n, k requires 0 <= k < n => dots[k].active), dataIndex);
          gallery.ShowSlide(0);
          gallery.StartRotation();
          outcome := Ready(n);
      }
  }

  /**
   * An entry skipped in front of a kept one shifts nothing: in the manifest
   * `[{url: "a"}, {caption: "x"}, {url: "b"}]` the second slide is numbered "Gallery photo 3"
   * and its dot carries `data-index` "2", so clicking that dot shows index 2 of two slides,
   * which leaves no slide active.
   */
  lemma SkippedEntryKeepsManifestPosition()
    ensures var m := [Entry(Some("a"), None), Entry(None, Some("x")), Entry(Some("b"), None)];
      && AcceptedPositions(m) == [0, 2]
      && SlideFor(m[2], 2).alt == "Gallery photo 3"
      && ParseInt(DotFor(2).dataIndex) == Some(2)
      && CountActive(Marks(|AcceptedPositions(m)|, 2)) == 0
  {
    var m := [Entry(Some("a"), None), Entry(None, Some("x")), Entry(Some("b"), None)];
    assert m[..2][..1] == m[..1];
    assert m[..1][..0] == [];
    assert m[..2] == [m[0], m[1]];
    assert AcceptedPositions(m[..1]) == [0];
    assert AcceptedPositions(m[..2]) == [0];
    MarksCount(2, 2);
  }

  /**
   * A skipped first entry shifts every later dot onto the next slide: in the manifest
   * `[{}, {url: "a"}, {url: "b"}]` the dot of "a" carries `data-index` "1", and clicking it
   * activates the second slide, the one showing "b".
   */
  lemma SkippedEntryShiftsDot()
    ensures var m := [Entry(None, None), Entry(Some("a"), None), Entry(Some("b"), None)];
      && AcceptedPositions(m) == [1, 2]
      && DotFor(AcceptedPositions(m)[0]).dataIndex == "1"
      && ParseInt(DotFor(AcceptedPositions(m)[0]).dataIndex) == Some(1)
      && Marks(|AcceptedPositions(m)|, 1) == [false, true]
      && SlideFor(m[AcceptedPositions(m)[1]], AcceptedPositions(m)[1]).src == "b"
  {
    var m := [Entry(None, None), Entry(Some("a"), None), Entry(Some("b"), None)];
    assert m[..2][..1] == m[..1];
    assert m[..1][..0] == [];
    assert m[..2] == [m[0], m[1]];
    assert AcceptedPositions(m[..1]) == [];
    assert AcceptedPositions(m[..2]) == [1];
    assert NatToString(1) == "1";
  }
}
