/** The `image` shortcode: an `<img>` (optionally inside a `<figure>` with a caption) whose
    Cloudinary URL gets a width / format / quality / pixel-density parameter segment. */
module Shortcodes {
  import opened Js

  // ---- String searching as `String.prototype.includes` and `replace` do it ----

  /** `t` occurs in `s` starting at position `i`. */
  predicate OccursAt(s: string, t: string, i: nat) {
    i + |t| <= |s| && s[i..i + |t|] == t
  }

  /** The first position at or after `from` where `t` occurs in `s` (`s.indexOf(t, from)`). */
  function IndexOfFrom(s: string, t: string, from: nat): (r: Option<nat>)
    ensures r.Some? ==> from <= r.value && OccursAt(s, t, r.value)
    ensures r.Some? ==> forall j :: from <= j < r.value ==> !OccursAt(s, t, j)
    ensures r.None? ==> forall j :: from <= j ==> !OccursAt(s, t, j)
    decreases |s| - from
  {
    if from + |t| > |s| then None
    else if s[from..from + |t|] == t then Some(from)
    else IndexOfFrom(s, t, from + 1)
  }

  function IndexOf(s: string, t: string): Option<nat> {
    IndexOfFrom(s, t, 0)
  }

  /** `s.includes(t)`. */
  predicate Contains(s: string, t: string) {
    IndexOf(s, t).Some?
  }

  /** `includes` holds exactly when the pattern occurs somewhere. */
  lemma ContainsIffOccurs(s: string, t: string)
    ensures Contains(s, t) <==> exists i: nat :: OccursAt(s, t, i)
  {
    if Contains(s, t) {
      assert OccursAt(s, t, IndexOf(s, t).value);
    }
  }

  /** `s.replace(pattern, replacement)` with a string pattern and a replacement without `$`:
      only the first occurrence is replaced. */
  function ReplaceFirst(s: string, pattern: string, replacement: string): (r: string)
    ensures IndexOf(s, pattern).None? ==> r == s
    ensures IndexOf(s, pattern).Some? ==>
      var i := IndexOf(s, pattern).value;
      r == s[..i] + replacement + s[i + |pattern|..]
  {
    match IndexOf(s, pattern)
    case None => s
    case Some(i) => s[..i] + replacement + s[i + |pattern|..]
  }

  // ---- Cloudinary transformation ----

  /** The number a string of decimal digits denotes, most significant digit first. */
  function DigitsValue(r: string): int
    decreases |r|
  {
    if r == [] then 0 else DigitsValue(r[..|r| - 1]) * 10 + (r[|r| - 1] as int - '0' as int)
  }

  /** Decimal digits of a width, as a template string prints a non-negative integer:
      digits with no leading zero that denote `n`. */
  function Decimal(n: nat): (r: string)
    ensures |r| >= 1
    ensures forall k :: 0 <= k < |r| ==> '0' <= r[k] <= '9'
    ensures r[0] == '0' ==> n == 0
    ensures DigitsValue(r) == n
  {
    if n < 10 then [('0' as int + n) as char]
    else
      var r := Decimal(n / 10) + [('0' as int + n % 10) as char];
      assert r[..|r| - 1] == Decimal(n / 10);
      r
  }

  /** `width ?? 'auto'`. */
  function WidthText(width: Option<nat>): (r: string)
    ensures width.None? ==> r == "auto"
    ensures width.Some? ==> DigitsValue(r) == width.value
    ensures |r| >= 1 && forall k :: 0 <= k < |r| ==> r[k] != '/'
    ensures width.Some? ==> (forall k :: 0 <= k < |r| ==> '0' <= r[k] <= '9') && (r[0] == '0' ==> width.value == 0)
  {
    match width
    case None => "auto"
    case Some(w) => Decimal(w)
  }

  /** The segment inserted after the delivery-type marker. */
  function Params(width: Option<nat>): (r: string)
    ensures |r| >= 26 && r[..2] == "w_"
    ensures r[|r| - 1] == '/' && forall k :: 0 <= k < |r| - 1 ==> r[k] != '/'
  {
    var w, tail := WidthText(width), ",f_auto,q_auto,dpr_2.0/";
    NoSlashInTail(tail);
    var r := "w_" + w + tail;
    assert forall k :: 0 <= k < |r| - 1 ==> r[k] == if k < 2 then "w_"[k] else if k < 2 + |w| then w[k - 2] else tail[k - 2 - |w|];
    r
  }

  /** The fixed part of the segment has its only `/` at the end. */
  lemma NoSlashInTail(tail: string)
    requires tail == ",f_auto,q_auto,dpr_2.0/"
    ensures |tail| == 23 && tail[22] == '/' && forall k :: 0 <= k < 22 ==> tail[k] != '/'
  {
  }

  /** Where the parameter segment goes: right after the first `upload/`, else the first
      `fetch/`, else the first `youtube/`, and only in a URL mentioning `cloudinary`. */
  function InsertionPoint(url: string): (r: Option<nat>)
    ensures r.Some? <==>
      (Contains(url, "cloudinary") && (Contains(url, "upload/") || Contains(url, "fetch/") || Contains(url, "youtube/")))
    ensures r.Some? && Contains(url, "upload/") ==> r.value == IndexOf(url, "upload/").value + 7
    ensures r.Some? && !Contains(url, "upload/") && Contains(url, "fetch/") ==>
      r.value == IndexOf(url, "fetch/").value + 6
    ensures r.Some? && !Contains(url, "upload/") && !Contains(url, "fetch/") ==>
      r.value == IndexOf(url, "youtube/").value + 8
    ensures r.Some? ==> r.value <= |url|
  {
    if !Contains(url, "cloudinary") then None
    else if Contains(url, "upload/") then Some(IndexOf(url, "upload/").value + 7)
    else if Contains(url, "fetch/") then Some(IndexOf(url, "fetch/").value + 6)
    else if Contains(url, "youtube/") then Some(IndexOf(url, "youtube/").value + 8)
    else None
  }

  /** Replacing the first `marker` by `marker + p` inserts `p` right after that occurrence. */
  lemma ReplaceInserts(url: string, marker: string, p: string)
    requires Contains(url, marker)
    ensures var k := IndexOf(url, marker).value + |marker|;
      ReplaceFirst(url, marker, marker + p) == url[..k] + p + url[k..]
  {
    var i := IndexOf(url, marker).value;
    var k := i + |marker|;
    var r := ReplaceFirst(url, marker, marker + p);
    assert r == url[..i] + (marker + p) + url[k..];
    assert url[..k] == url[..i] + marker by {
      assert url[i..k] == marker;
    }
    Regroup(url[..i], marker, p, url[k..]);
  }

  lemma Regroup(a: string, b: string, c: string, d: string)
    ensures a + (b + c) + d == (a + b) + c + d
  {
  }

  /** `transformCloudinaryImage`: the URL with the parameter segment inserted at the
      insertion point, or the URL itself when there is none. */
  function TransformCloudinaryImage(url: string, width: Option<nat>): (r: string)
    ensures InsertionPoint(url).None? ==> r == url
    ensures InsertionPoint(url).Some? ==>
      var k := InsertionPoint(url).value;
      r == url[..k] + Params(width) + url[k..]
  {
    var p := Params(width);
    if Contains(url, "cloudinary") then
      if Contains(url, "upload/") then
        ReplaceInserts(url, "upload/", p);
        ReplaceFirst(url, "upload/", "upload/" + p)
      else if Contains(url, "fetch/") then
        ReplaceInserts(url, "fetch/", p);
        ReplaceFirst(url, "fetch/", "fetch/" + p)
      else if Contains(url, "youtube/") then
        ReplaceInserts(url, "youtube/", p);
        ReplaceFirst(url, "youtube/", "youtube/" + p)
      else url
    else url
  }

  /** Deleting the inserted segment gives back the original URL; nothing else was touched. */
  lemma RemovingParamsRestoresUrl(url: string, width: Option<nat>)
    requires InsertionPoint(url).Some?
    ensures var k := InsertionPoint(url).value;
      var r := TransformCloudinaryImage(url, width);
      && k + |Params(width)| <= |r|
      && r[k..k + |Params(width)|] == Params(width)
      && r[..k] + r[k + |Params(width)|..] == url
  {
    var k := InsertionPoint(url).value;
    var p := Params(width);
    var r := TransformCloudinaryImage(url, width);
    assert r == url[..k] + p + url[k..];
    assert r[..k] == url[..k];
    assert r[k + |p|..] == url[k..];
  }

  /** A missing width is written as `w_auto`. */
  lemma ParamsAuto()
    ensures Params(None) == "w_auto,f_auto,q_auto,dpr_2.0/"
  {
  }

  // ---- The shortcode ----

  /** The `<img>` element the shortcode emits. */
  function ImgTag(src: string, alt: string): (r: string)
    ensures |r| == |src| + |alt| + 21
    ensures r[..10] == "<img src=\"" && r[10..10 + |src|] == src
    ensures r[10 + |src|..|r| - 4 - |alt|] == "\" alt=\""
    ensures r[|r| - 4..] == "\" />" && r[|r| - 4 - |alt|..|r| - 4] == alt
  {
    "<img src=\"" + src + "\" alt=\"" + alt + "\" />"
  }

  /** `image(url, alt, caption)`. The source is the URL transformed at width 800; a missing
      alt becomes the empty string; a truthy caption wraps the image in a `<figure>`. */
  function Image(url: string, alt: Option<string>, caption: Option<string>): (r: string)
    ensures TruthyStr(caption) ==>
      r == "<figure>" + ImgTag(TransformCloudinaryImage(url, Some(800)), alt.GetOr(""))
           + "<figcaption>" + caption.value + "</figcaption></figure>"
    ensures !TruthyStr(caption) ==> r == ImgTag(TransformCloudinaryImage(url, Some(800)), alt.GetOr(""))
  {
    var transformedUrl := TransformCloudinaryImage(url, Some(800));
    var altText := alt.GetOr("");
    if TruthyStr(caption) then
      "<figure>" + ImgTag(transformedUrl, altText) + "<figcaption>" + caption.value + "</figcaption></figure>"
    else ImgTag(transformedUrl, altText)
  }

  /** A shortcode output is a figure exactly when the caption is truthy: only then does it
      start with `<figure>` and end with `</figcaption></figure>`. */
  lemma ImageIsFigureIffCaption(url: string, alt: Option<string>, caption: Option<string>)
    ensures var r := Image(url, alt, caption);
      (|r| >= 8 && r[..8] == "<figure>") <==> TruthyStr(caption)
    ensures var r := Image(url, alt, caption);
      TruthyStr(caption) ==> |r| >= 22 && r[|r| - 22..] == "</figcaption></figure>"
  {
    var r := Image(url, alt, caption);
    var img := ImgTag(TransformCloudinaryImage(url, Some(800)), alt.GetOr(""));
    if TruthyStr(caption) {
      assert r == "<figure>" + (img + "<figcaption>" + caption.value + "</figcaption></figure>");
      assert r[|r| - 22..] == "</figcaption></figure>";
    } else {
      assert r == img;
      assert r[1] == img[..10][1] == 'i';
    }
  }

  /** A missing alt and an empty alt give the same markup. */
  lemma MissingAltIsEmpty(url: string, caption: Option<string>)
    ensures Image(url, None, caption) == Image(url, Some(""), caption)
  {
  }

  lemma Decimal800()
    ensures Decimal(800) == "800"
  {
    assert 800 / 10 == 80 && 800 % 10 == 0;
    assert 80 / 10 == 8 && 80 % 10 == 0;
    assert Decimal(8) == "8";
    assert Decimal(80) == Decimal(8) + "0";
  }

  /** The segment the shortcode inserts, with its fixed width 800. */
  lemma Params800()
    ensures Params(Some(800)) == "w_800,f_auto,q_auto,dpr_2.0/"
  {
    Decimal800();
  }
}
