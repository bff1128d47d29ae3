/**
 * Image helpers: the query string the two image CDNs understand, appended to a URL
 * that names one of them, and the inline SVG placeholder of a given colour.
 */
module ImageOptimization {
  import opened Options
  import opened Text

  const DefaultWidth: nat := 1200
  const DefaultQuality: nat := 80

  /** A destructuring default: it applies only when the option is absent. */
  function OrDefault(option: Option<nat>, default: nat): (r: nat)
    ensures option.Some? ==> r == option.value
    ensures option.None? ==> r == default
  {
    if option.Some? then option.value else default
  }

  /** Cloudinary's parameters: width, quality and automatic format. */
  function CloudinaryParams(width: nat, quality: nat): string
  {
    "?w=" + NatToString(width) + "&q=" + NatToString(quality) + "&f=auto"
  }

  /** ImageKit's transformation string with the same three settings. */
  function ImageKitParams(width: nat, quality: nat): string
  {
    "?tr=w-" + NatToString(width) + ",q-" + NatToString(quality) + ",f-auto"
  }

  /** `optimizeImageUrl`: the URL itself always comes first in the result. */
  function OptimizeImageUrl(url: string, width: Option<nat>, quality: Option<nat>): (r: string)
    ensures |url| <= |r| && r[..|url|] == url
  {
    var w := OrDefault(width, DefaultWidth);
    var q := OrDefault(quality, DefaultQuality);
    if url == [] then url
    else if Contains(url, "cloudinary") then url + CloudinaryParams(w, q)
    else if Contains(url, "imagekit") then url + ImageKitParams(w, q)
    else url
  }

  /** What is appended, case by case: nothing to the empty URL or to one naming
      neither CDN, Cloudinary's parameters whenever "cloudinary" appears (even
      alongside "imagekit"), ImageKit's otherwise; absent settings are 1200 and 80. */
  lemma OptimizeCases(url: string, width: Option<nat>, quality: Option<nat>)
    ensures var w := OrDefault(width, DefaultWidth);
            var q := OrDefault(quality, DefaultQuality);
            var r := OptimizeImageUrl(url, width, quality);
            && (Contains(url, "cloudinary") ==> r == url + CloudinaryParams(w, q))
            && (!Contains(url, "cloudinary") && Contains(url, "imagekit") ==> r == url + ImageKitParams(w, q))
            && (r == url <==> !Contains(url, "cloudinary") && !Contains(url, "imagekit"))
    ensures OptimizeImageUrl(url, None, None) == OptimizeImageUrl(url, Some(1200), Some(80))
    ensures OptimizeImageUrl([], width, quality) == []
  {
    if Contains(url, "cloudinary") || Contains(url, "imagekit") {
      ContainsIff(url, "cloudinary");
      ContainsIff(url, "imagekit");
      assert url != [];
    }
  }

  lemma CloudinaryParamsInjective(w: nat, q: nat, w': nat, q': nat)
    requires CloudinaryParams(w, q) == CloudinaryParams(w', q')
    ensures w == w' && q == q'
  {
    TwoNumberFieldsCancel("?w=", w, "&q=", q, "&f=auto", w', q');
  }

  lemma ImageKitParamsInjective(w: nat, q: nat, w': nat, q': nat)
    requires ImageKitParams(w, q) == ImageKitParams(w', q')
    ensures w == w' && q == q'
  {
    TwoNumberFieldsCancel("?tr=w-", w, ",q-", q, ",f-auto", w', q');
  }

  /** Different settings for the same CDN URL give different URLs: the width and the
      quality can be read back from the query. */
  lemma OptimizeSettingsReadBack(url: string, w: nat, q: nat, w': nat, q': nat)
    requires Contains(url, "cloudinary") || Contains(url, "imagekit")
    requires OptimizeImageUrl(url, Some(w), Some(q)) == OptimizeImageUrl(url, Some(w'), Some(q'))
    ensures w == w' && q == q'
  {
    OptimizeCases(url, Some(w), Some(q));
    OptimizeCases(url, Some(w'), Some(q'));
    var r := OptimizeImageUrl(url, Some(w), Some(q));
    if Contains(url, "cloudinary") {
      assert CloudinaryParams(w, q) == r[|url|..] == CloudinaryParams(w', q');
      CloudinaryParamsInjective(w, q, w', q');
    } else {
      assert ImageKitParams(w, q) == r[|url|..] == ImageKitParams(w', q');
      ImageKitParamsInjective(w, q, w', q');
    }
  }


  // ---------------------------------------------------------------------------
  // encodeURIComponent
  // ---------------------------------------------------------------------------

  /** The characters `encodeURIComponent` leaves as they are. */
  predicate IsUriUnreserved(c: char)
  {
    || ('A' <= c <= 'Z') || ('a' <= c <= 'z') || ('0' <= c <= '9')
    || c == '-' || c == '_' || c == '.' || c == '!' || c == '~'
    || c == '*' || c == '\'' || c == '(' || c == ')'
  }

  /** The UTF-8 encoding of one Unicode scalar value. */
  function Utf8(c: char): (bytes: seq<nat>)
    ensures 1 <= |bytes| <= 4
    ensures forall i :: 0 <= i < |bytes| ==> bytes[i] < 256
    ensures c as int < 0x80 <==> bytes == [c as int]
  {
    var n := c as int;
    if n < 0x80 then [n]
    else if n < 0x800 then [0xC0 + n / 0x40, 0x80 + n % 0x40]
    else if n < 0x1_0000 then [0xE0 + n / 0x1000, 0x80 + n / 0x40 % 0x40, 0x80 + n % 0x40]
    else [0xF0 + n / 0x4_0000, 0x80 + n / 0x1000 % 0x40, 0x80 + n / 0x40 % 0x40, 0x80 + n % 0x40]
  }

  /** An upper-case hexadecimal digit. */
  function HexDigit(d: nat): (c: char)
    requires d < 16
    ensures IsHexDigit(c) && HexValue(c) == d
  {
    if d < 10 then (d + '0' as int) as char else (d - 10 + 'A' as int) as char
  }

  predicate IsHexDigit(c: char)
  {
    ('0' <= c <= '9') || ('A' <= c <= 'F')
  }

  function HexValue(c: char): nat
    requires IsHexDigit(c)
  {
    if c <= '9' then c as int - '0' as int else c as int - 'A' as int + 10
  }

  /** Every character is '%' or an upper-case hexadecimal digit. */
  predicate IsEscapeText(r: string)
  {
    forall i :: 0 <= i < |r| ==> r[i] == '%' || IsHexDigit(r[i])
  }

  /** What `encodeURIComponent` can produce: unreserved characters and escapes. */
  predicate IsEncodedText(r: string)
  {
    forall i :: 0 <= i < |r| ==> IsUriUnreserved(r[i]) || r[i] == '%' || IsHexDigit(r[i])
  }

  /** `%XY` for each byte. */
  function PercentBytes(bytes: seq<nat>): (r: string)
    requires forall i :: 0 <= i < |bytes| ==> bytes[i] < 256
    ensures |r| == 3 * |bytes|
  {
    if bytes == [] then []
    else ['%', HexDigit(bytes[0] / 16), HexDigit(bytes[0] % 16)] + PercentBytes(bytes[1..])
  }

  function EncodeChar(c: char): (r: string)
  {
    if IsUriUnreserved(c) then [c] else PercentBytes(Utf8(c))
  }

  /** `encodeURIComponent`. */
  function EncodeUriComponent(s: string): (r: string)
    ensures IsEncodedText(r)
  {
    if s == [] then []
    else
      EncodeCharChars(s[0]);
      EncodeChar(s[0]) + EncodeUriComponent(s[1..])
  }

  /** Every character of a percent-escape is '%' or a hexadecimal digit. */
  lemma {:induction false} PercentBytesChars(bytes: seq<nat>)
    requires forall i :: 0 <= i < |bytes| ==> bytes[i] < 256
    ensures IsEscapeText(PercentBytes(bytes))
  {
    if bytes != [] {
      PercentBytesChars(bytes[1..]);
      var head := ['%', HexDigit(bytes[0] / 16), HexDigit(bytes[0] % 16)];
      var tail := PercentBytes(bytes[1..]);
      var r := PercentBytes(bytes);
      assert r == head + tail;
      forall i | 0 <= i < |r|
        ensures r[i] == '%' || IsHexDigit(r[i])
      {
        if i >= 3 {
          assert r[i] == tail[i - 3];
        } else {
          assert r[i] == head[i];
        }
      }
    }
  }

  lemma EncodeCharChars(c: char)
    ensures IsEncodedText(EncodeChar(c))
  {
    if !IsUriUnreserved(c) {
      PercentBytesChars(Utf8(c));
    }
  }

  /** Reads `%XY` escapes back as single characters, for text that was ASCII. */
  function PercentDecode(s: string): string
  {
    if |s| >= 3 && s[0] == '%' && IsHexDigit(s[1]) && IsHexDigit(s[2]) then
      [(16 * HexValue(s[1]) + HexValue(s[2])) as char] + PercentDecode(s[3..])
    else if s == [] then []
    else [s[0]] + PercentDecode(s[1..])
  }

  predicate IsAscii(s: string)
  {
    forall i :: 0 <= i < |s| ==> s[i] as int < 0x80
  }

  /** One encoded ASCII character in front of any text decodes to that character. */
  lemma DecodeEncodedChar(c: char, rest: string)
    requires c as int < 0x80
    ensures PercentDecode(EncodeChar(c) + rest) == [c] + PercentDecode(rest)
  {
    if IsUriUnreserved(c) {
      assert ([c] + rest)[1..] == rest;
    } else {
      var b := c as int;
      assert EncodeChar(c) == ['%', HexDigit(b / 16), HexDigit(b % 16)];
      var s := EncodeChar(c) + rest;
      assert s[3..] == rest;
      assert (16 * HexValue(s[1]) + HexValue(s[2])) as char == c;
    }
  }

  /** Percent-decoding undoes `encodeURIComponent` on ASCII text. */
  lemma {:induction false} EncodeDecodeAscii(s: string)
    requires IsAscii(s)
    ensures PercentDecode(EncodeUriComponent(s)) == s
  {
    if s != [] {
      EncodeDecodeAscii(s[1..]);
      DecodeEncodedChar(s[0], EncodeUriComponent(s[1..]));
      assert s == [s[0]] + s[1..];
    }
  }

  /** Encoding works character by character. */
  lemma {:induction false} EncodeAppend(a: string, b: string)
    ensures EncodeUriComponent(a + b) == EncodeUriComponent(a) + EncodeUriComponent(b)
  {
    if a != [] {
      assert (a + b)[0] == a[0];
      assert (a + b)[1..] == a[1..] + b;
      EncodeAppend(a[1..], b);
    } else {
      assert a + b == b;
    }
  }

  /** The apostrophe is unreserved: the encoding has one exactly when the input has,
      so an apostrophe in a colour ends the quoted `fill` value early. */
  lemma {:induction false} EncodeKeepsApostrophes(s: string)
    ensures '\'' in s <==> '\'' in EncodeUriComponent(s)
  {
    if s != [] {
      EncodeKeepsApostrophes(s[1..]);
      EncodeCharChars(s[0]);
      var head := EncodeChar(s[0]);
      if IsUriUnreserved(s[0]) {
        assert head == [s[0]];
      } else {
        PercentBytesChars(Utf8(s[0]));
        assert forall i :: 0 <= i < |head| ==> head[i] != '\'';
      }
      assert s == [s[0]] + s[1..];
      assert EncodeUriComponent(s) == head + EncodeUriComponent(s[1..]);
    }
  }


  // ---------------------------------------------------------------------------
  // getImagePlaceholder
  // ---------------------------------------------------------------------------

  const DefaultColor: string := "#0B0F1A"

  /** The SVG data URI up to the value of the rectangle's `fill` attribute. */
  const PlaceholderHead: string :=
    "data:image/svg+xml,%3Csvg xmlns='http://www.w3.org/2000/svg' viewBox='0 0 16 9'%3E%3Crect fill='"

  /** The rest of the data URI after the `fill` value. */
  const PlaceholderTail: string := "' width='16' height='9'/%3E%3C/svg%3E"

  /** `getImagePlaceholder`: a 16 by 9 rectangle filled with the encoded colour. */
  function ImagePlaceholder(color: Option<string>): string
  {
    var c := if color.Some? then color.value else DefaultColor;
    PlaceholderHead + EncodeUriComponent(c) + PlaceholderTail
  }

  /** The `fill` value is the encoded colour, and an ASCII colour can be read back
      from it. */
  lemma PlaceholderFill(color: string)
    ensures var p := ImagePlaceholder(Some(color));
            var n := |p| - |PlaceholderHead| - |PlaceholderTail|;
            && p[..|PlaceholderHead|] == PlaceholderHead
            && p[|p| - |PlaceholderTail|..] == PlaceholderTail
            && p[|PlaceholderHead|..|PlaceholderHead| + n] == EncodeUriComponent(color)
            && (IsAscii(color) ==> PercentDecode(p[|PlaceholderHead|..|PlaceholderHead| + n]) == color)
  {
    if IsAscii(color) {
      EncodeDecodeAscii(color);
    }
  }

  lemma EncodeHash()
    ensures EncodeUriComponent("#") == "%23"
  {
    assert Utf8('#') == [35];
    assert EncodeChar('#') == "%23";
  }

  lemma EncodeHexLetters()
    ensures EncodeUriComponent("0B0F1A") == "0B0F1A"
  {
  }

  /** Without a colour, the rectangle is filled with "#0B0F1A", whose `#` is escaped. */
  lemma DefaultPlaceholder()
    ensures ImagePlaceholder(None) == PlaceholderHead + "%23" + "0B0F1A" + PlaceholderTail
  {
    assert DefaultColor == "#" + "0B0F1A";
    EncodeAppend("#", "0B0F1A");
    EncodeHash();
    EncodeHexLetters();
  }
}
