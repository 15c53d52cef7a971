/**
  The parameter rules of the filters: how each filter reads its string
  arguments, which values it rejects, and the integer arithmetic it does
  before handing the image to the imaging library. `flip` and the
  black-and-white pixel map are also given a grid model (`seq<seq<T>>`).
 */
module Parameters {
  import opened Text
  import opened Errors

  // ---------------------------------------------------------------------------
  // flip

  /** `TopBottom` swaps the rows (FLIP_TOP_BOTTOM), `LeftRight` swaps the columns (FLIP_LEFT_RIGHT). */
  datatype Axis = TopBottom | LeftRight

  /** The direction names `flip` accepts, matched case-insensitively. */
  function FlipAxis(direction: string): (r: Result<Axis>)
    ensures r.Ok? <==> Lower(direction) in {"v", "vertical", "h", "horizontal"}
    ensures r == Ok(TopBottom) <==> Lower(direction) in {"v", "vertical"}
    ensures r.Err? ==> r.error == InvalidFlipDirection(direction)
  {
    var d := Lower(direction);
    if d == "vertical" || d == "v" || d == "horizontal" || d == "h" then
      if d == "v" || d == "vertical" then Ok(TopBottom) else Ok(LeftRight)
    else Err(InvalidFlipDirection(direction))
  }

  /** The reverse of a sequence. */
  function Reverse<T>(s: seq<T>): (r: seq<T>)
    ensures |r| == |s|
    ensures forall k :: 0 <= k < |s| ==> r[k] == s[|s| - 1 - k]
  {
    if |s| == 0 then [] else [s[|s| - 1]] + Reverse(s[..|s| - 1])
  }

  /** An image as rows of pixels, mirrored along an axis. */
  function FlipGrid<T>(g: seq<seq<T>>, axis: Axis): (r: seq<seq<T>>)
    ensures |r| == |g|
    ensures axis == TopBottom ==> forall i :: 0 <= i < |g| ==> r[i] == g[|g| - 1 - i]
    ensures axis == LeftRight ==> forall i :: 0 <= i < |g| ==>
              |r[i]| == |g[i]| && forall j :: 0 <= j < |g[i]| ==> r[i][j] == g[i][|g[i]| - 1 - j]
  {
    match axis
    case TopBottom => Reverse(g)
    case LeftRight => seq(|g|, i requires 0 <= i < |g| => Reverse(g[i]))
  }

  /** Two flips in the same direction leave the image as it was. */
  lemma FlipImageTwice<T>(g: seq<seq<T>>, direction: string)
    requires FlipImage(g, direction).Ok?
    ensures FlipImage(FlipImage(g, direction).value, direction) == Ok(g)
  {
    var axis := FlipAxis(direction).value;
    FlipGridInvolution(g, axis);
  }

  /** The `flip` filter on the grid model: the direction is read as in the
      filter (default `horizontal`) and the grid mirrored along its axis. */
  function FlipImage<T>(g: seq<seq<T>>, direction: string): (r: Result<seq<seq<T>>>)
    ensures r.Ok? <==> Lower(direction) in {"v", "vertical", "h", "horizontal"}
    ensures r.Err? ==> r.error == InvalidFlipDirection(direction)
    ensures r.Ok? ==> |r.value| == |g|
    ensures r.Ok? && Lower(direction) in {"v", "vertical"} ==>
              forall i :: 0 <= i < |g| ==> r.value[i] == g[|g| - 1 - i]
    ensures r.Ok? && Lower(direction) in {"h", "horizontal"} ==>
              forall i :: 0 <= i < |g| ==> r.value[i] == Reverse(g[i])
  {
    var axis :- FlipAxis(direction);
    Ok(FlipGrid(g, axis))
  }

  /** Flipping twice along the same axis gives the image back. */
  lemma FlipGridInvolution<T>(g: seq<seq<T>>, axis: Axis)
    ensures FlipGrid(FlipGrid(g, axis), axis) == g
  {
    var once := FlipGrid(g, axis);
    var twice := FlipGrid(once, axis);
    if axis == LeftRight {
      forall i | 0 <= i < |g|
        ensures twice[i] == g[i]
      {
        assert |twice[i]| == |g[i]|;
      }
    }
  }

  // ---------------------------------------------------------------------------
  // black_and_white

  /** The threshold pushed into 0..255. */
  function ClampThreshold(n: int): (t: int)
    ensures 0 <= t <= 255
    ensures 0 <= n <= 255 ==> t == n
    ensures n < 0 ==> t == 0
    ensures n > 255 ==> t == 255
  {
    if n < 0 then 0 else if n > 255 then 255 else n
  }

  /** The threshold argument: an integer (else a `ValueError`), clamped. */
  function Threshold(argument: string): (r: Result<int>)
    ensures r.Ok? <==> ParseInt(argument).Some?
    ensures r.Ok? ==> 0 <= r.value <= 255
    ensures r.Ok? ==> r.value == ClampThreshold(ParseInt(argument).value)
    ensures r.Err? ==> r.error == InvalidParameter("black_and_white", argument)
  {
    match ParseInt(argument)
    case Some(n) => Ok(ClampThreshold(n))
    case None => Err(InvalidParameter("black_and_white", argument))
  }

  /** The point map of the black-and-white image: white at or above the threshold, black below. */
  function BinaryPixel(threshold: int, luminance: int): (v: int)
    ensures v == 0 || v == 255
    ensures v == 255 <==> luminance >= threshold
  {
    if luminance >= threshold then 255 else 0
  }

  /** A luminance image mapped through the black-and-white point map. */
  function BinarizeGrid(lum: seq<seq<int>>, threshold: int): (r: seq<seq<int>>)
    ensures |r| == |lum|
    ensures forall i :: 0 <= i < |lum| ==> |r[i]| == |lum[i]|
  {
    seq(|lum|, i requires 0 <= i < |lum| =>
      seq(|lum[i]|, j requires 0 <= j < |lum[i]| => BinaryPixel(threshold, lum[i][j])))
  }

  /** The black-and-white image holds only 0 and 255; a pixel is white
      exactly when its luminance reaches the threshold. */
  lemma BinarizeIsBinary(lum: seq<seq<int>>, threshold: int)
    ensures var r := BinarizeGrid(lum, threshold);
            forall i, j :: 0 <= i < |r| && 0 <= j < |r[i]| ==>
              (r[i][j] == 0 || r[i][j] == 255) && (r[i][j] == 255 <==> lum[i][j] >= threshold)
  {
  }

  /** The `black_and_white` filter on a luminance grid: the threshold
      argument is parsed and clamped, then every pixel becomes 0 or 255. */
  function BlackAndWhiteImage(lum: seq<seq<int>>, threshold: string): (r: Result<seq<seq<int>>>)
    ensures r.Ok? <==> ParseInt(threshold).Some?
    ensures r.Err? ==> r.error == InvalidParameter("black_and_white", threshold)
  {
    var t :- Threshold(threshold);
    Ok(BinarizeGrid(lum, t))
  }

  /** A successful black-and-white image keeps the shape and holds only 0 and
      255; a pixel is white exactly when its luminance reaches the clamped
      threshold. With a threshold in 1..255, as in the filter's tests, black
      stays black and white stays white. */
  lemma BlackAndWhiteIsBinary(lum: seq<seq<int>>, threshold: string)
    requires ParseInt(threshold).Some?
    ensures var r := BlackAndWhiteImage(lum, threshold).value;
            var t := ClampThreshold(ParseInt(threshold).value);
            && |r| == |lum|
            && (forall i :: 0 <= i < |lum| ==> |r[i]| == |lum[i]|)
            && (forall i, j :: 0 <= i < |lum| && 0 <= j < |lum[i]| ==>
                  (r[i][j] == 0 || r[i][j] == 255) && (r[i][j] == 255 <==> lum[i][j] >= t))
            && (1 <= t ==> forall i, j :: 0 <= i < |lum| && 0 <= j < |lum[i]| && lum[i][j] == 0 ==> r[i][j] == 0)
            && (forall i, j :: 0 <= i < |lum| && 0 <= j < |lum[i]| && lum[i][j] == 255 ==> r[i][j] == 255)
  {
    var t := ClampThreshold(ParseInt(threshold).value);
    BinarizeIsBinary(lum, t);
  }

  // ---------------------------------------------------------------------------
  // resize

  /** `int(a / b)` for `b > 0`: the true quotient truncated toward zero. */
  function TruncDiv(a: int, b: int): (q: int)
    requires b > 0
    ensures a >= 0 ==> q * b <= a < (q + 1) * b
    ensures a < 0 ==> (q - 1) * b < a <= q * b
  {
    if a >= 0 then a / b else -((-a) / b)
  }

  /** The height that keeps the aspect ratio of a `width` x `height` image
      at the new width `w`: `int(w * height / width)`. */
  function ScaledHeight(w: int, width: nat, height: nat): (h: int)
    requires width > 0
    ensures w >= 0 ==> h * width <= w * height < (h + 1) * width
  {
    TruncDiv(w * height, width)
  }

  /** The size `resize` asks for, given the image size (width, height), the
      width argument and the optional height argument; an empty height counts
      as absent. */
  function ResizeTarget(size: (nat, nat), width: string, height: Option<string>): (r: Result<(int, int)>)
    ensures ParseInt(width).None? ==> r == Err(InvalidParameter("resize", width))
    ensures r.Ok? ==> ParseInt(width) == Some(r.value.0)
    ensures r.Ok? && height.Some? && height.value != "" ==> ParseInt(height.value) == Some(r.value.1)
    ensures r.Ok? && (height.None? || height.value == "") ==>
              size.0 > 0 && r.value.1 == ScaledHeight(r.value.0, size.0, size.1)
    ensures ParseInt(width).Some? && (height.None? || height.value == "") ==>
              (r == Err(ZeroDivision) <==> size.0 == 0) && (r.Ok? <==> size.0 > 0)
    ensures ParseInt(width).Some? && height.Some? && height.value != "" ==>
              (r.Ok? <==> ParseInt(height.value).Some?)
              && (r.Err? ==> r == Err(InvalidParameter("resize", height.value)))
  {
    match ParseInt(width)
    case None => Err(InvalidParameter("resize", width))
    case Some(w) =>
      if height.None? || height.value == "" then
        if size.0 == 0 then Err(ZeroDivision)
        else Ok((w, ScaledHeight(w, size.0, size.1)))
      else
        match ParseInt(height.value)
        case None => Err(InvalidParameter("resize", height.value))
        case Some(h) => Ok((w, h))
  }

  /** Without a height, a non-negative target keeps the aspect ratio up to
      truncation: `nh / nw` is the largest multiple of `1 / w` not above `h / w`. */
  lemma ResizeKeepsRatio(size: (nat, nat), width: string)
    requires size.0 > 0
    requires ParseInt(width).Some? && ParseInt(width).value >= 0
    ensures ResizeTarget(size, width, None).Ok?
    ensures var (nw, nh) := ResizeTarget(size, width, None).value;
            nw == ParseInt(width).value && nh * size.0 <= nw * size.1 < (nh + 1) * size.0
  {
    var (nw, nh) := ResizeTarget(size, width, None).value;
    assert nh == ScaledHeight(nw, size.0, size.1);
  }

  /** `resize:200` on a 400x300 image asks for 200x150. */
  lemma ResizeWidthExample()
    ensures ResizeTarget((400, 300), "200", None) == Ok((200, 150))
  {
    Parse200();
    assert ScaledHeight(200, 400, 300) == 150;
  }

  /** `resize:200:300` asks for 200x300 whatever the image size. */
  lemma ResizeBothExample(size: (nat, nat))
    ensures ResizeTarget(size, "200", Some("300")) == Ok((200, 300))
  {
    Parse200();
    Parse300();
  }

  lemma Parse200()
    ensures ParseInt("200") == Some(200)
  {
    assert IntToString(200) == "200" by {
      assert NatToString(200) == NatToString(20) + "0";
      assert NatToString(20) == NatToString(2) + "0";
    }
    ParseIntToString(200);
  }

  lemma Parse300()
    ensures ParseInt("300") == Some(300)
  {
    assert IntToString(300) == "300" by {
      assert NatToString(300) == NatToString(30) + "0";
      assert NatToString(30) == NatToString(3) + "0";
    }
    ParseIntToString(300);
  }

  // ---------------------------------------------------------------------------
  // rotate

  /** The `expand` argument of `rotate`: true, 1 or yes in any case. */
  function ExpandFlag(expand: string): (b: bool)
    ensures b <==> Lower(expand) in {"true", "1", "yes"}
  {
    var e := Lower(expand);
    e == "true" || e == "1" || e == "yes"
  }

  /** Every string made of the same characters up to case gives the same flag. */
  lemma ExpandFlagIgnoresCase(a: string, b: string)
    requires Lower(a) == Lower(b)
    ensures ExpandFlag(a) == ExpandFlag(b)
  {
  }

  /** The spellings of tests.py: `True` (as `str(True)`), `true` and `tRuE`
      expand. */
  lemma ExpandFlagTrueSpellings()
    ensures ExpandFlag("True") && ExpandFlag("true") && ExpandFlag("tRuE")
  {
    assert Lower("True") == "true";
    assert Lower("tRuE") == "true";
  }

  /** The spellings of tests.py: `yEs`, `YES` and `1` (also as `str(1)`)
      expand. */
  lemma ExpandFlagOtherSpellings()
    ensures ExpandFlag("yEs") && ExpandFlag("YES") && ExpandFlag("1")
  {
    assert Lower("yEs") == "yes";
    assert Lower("YES") == "yes";
    assert Lower("1") == "1";
  }

  /** The default `false`, in any case, and other words do not expand. */
  lemma ExpandFlagOffSpellings()
    ensures !ExpandFlag("false") && !ExpandFlag("False") && !ExpandFlag("on") && !ExpandFlag("")
  {
    assert Lower("False") == "false";
    assert Lower("on") == "on";
  }

  /** The `angle` argument of `rotate`: absent means 45, which is always a
      number; a given angle must be a float. */
  function RotateAngle(isFloat: string -> bool, angle: Option<string>): (r: Result<string>)
    ensures angle.None? ==> r == Ok("45")
    ensures angle.Some? ==> (r.Ok? <==> isFloat(angle.value)) && (r.Ok? ==> r.value == angle.value)
    ensures r.Err? ==> r.error == InvalidParameter("rotate", angle.value)
  {
    if angle.None? then Ok("45")
    else if isFloat(angle.value) then Ok(angle.value)
    else Err(InvalidParameter("rotate", angle.value))
  }

  predicate AllFloats(isFloat: string -> bool, parts: seq<string>)
  {
    forall k :: 0 <= k < |parts| ==> isFloat(parts[k])
  }

  /** The `center` argument of `rotate`: absent, empty or comma-free means
      the image centre; otherwise every comma piece must be a float (all of
      them, though only the first two are used). */
  function RotateCenter(isFloat: string -> bool, center: Option<string>): (r: Result<Option<(string, string)>>)
    ensures center.None? || center.value == "" || ',' !in center.value ==> r == Ok(None)
    ensures center.Some? && ',' in center.value ==>
              var parts := Split(center.value, ',');
              && (r.Err? <==> !AllFloats(isFloat, parts))
              && (r.Ok? ==> r.value == Some((parts[0], parts[1])))
    ensures r.Err? ==> r.error == InvalidParameter("rotate", center.value)
  {
    if center.None? || center.value == "" || ',' !in center.value then Ok(None)
    else
      var parts := Split(center.value, ',');
      if AllFloats(isFloat, parts) then Ok(Some((parts[0], parts[1])))
      else Err(InvalidParameter("rotate", center.value))
  }

  // ---------------------------------------------------------------------------
  // sepia

  /** The `ratio` argument of `sepia`: absent or empty means 1.0; otherwise it must be a float. */
  function SepiaRatio(isFloat: string -> bool, ratio: Option<string>): (r: Result<string>)
    ensures ratio.None? || ratio.value == "" ==> r == Ok("1.0")
    ensures ratio.Some? && ratio.value != "" ==>
              (r.Ok? <==> isFloat(ratio.value)) && (r.Ok? ==> r.value == ratio.value)
    ensures r.Err? ==> r.error == InvalidParameter("sepia", ratio.value)
  {
    if ratio.None? || ratio.value == "" then Ok("1.0")
    else if isFloat(ratio.value) then Ok(ratio.value)
    else Err(InvalidParameter("sepia", ratio.value))
  }

  // ---------------------------------------------------------------------------
  // overlay

  /** Whether an image of the given mode and info keys carries transparency. */
  function HasTransparency(mode: string, info: set<string>): (b: bool)
    ensures b ==> mode in {"RGBA", "LA", "P"}
    ensures mode == "RGBA" || mode == "LA" ==> b
    ensures mode == "P" ==> (b <==> "transparency" in info)
  {
    mode == "RGBA" || mode == "LA" || (mode == "P" && "transparency" in info)
  }

  /** One axis of the overlay position: a position at or past half the
      foreground short of the background edge snaps to the flush position.
      `2 * pos >= 2 * background - foreground` is the source's
      `pos >= background - foreground * 0.5` in integers. */
  function EdgeClamp(pos: int, background: nat, foreground: nat): (r: int)
    ensures r <= pos
    ensures 2 * (r + foreground) < 2 * background + foreground || r + foreground == background
    ensures 2 * pos < 2 * background - foreground ==> r == pos
    ensures 2 * pos >= 2 * background - foreground ==> r == background - foreground
  {
    if 2 * pos >= 2 * background - foreground then background - foreground else pos
  }

  predicate AllInts(parts: seq<string>)
  {
    forall k :: 0 <= k < |parts| ==> ParseInt(parts[k]).Some?
  }

  /** The overlay position from the `coordinates` argument and the sizes of
      the background and the foreground. Absent or empty means (0, 0),
      unclamped; otherwise the value needs a comma and every comma piece must
      be an integer; the first two are clamped axis by axis. */
  function OverlayPosition(coordinates: Option<string>, background: (nat, nat), foreground: (nat, nat))
    : (r: Result<(int, int)>)
    ensures coordinates.None? || coordinates.value == "" ==> r == Ok((0, 0))
    ensures coordinates.Some? && coordinates.value != "" ==>
              && (r.Err? <==> ',' !in coordinates.value || !AllInts(Split(coordinates.value, ',')))
              && (r.Err? ==> r.error == InvalidOverlayCoordinates(coordinates.value))
    ensures coordinates.Some? && coordinates.value != "" && r.Ok? ==>
              var parts := Split(coordinates.value, ',');
              && r.value == (EdgeClamp(ParseInt(parts[0]).value, background.0, foreground.0),
                             EdgeClamp(ParseInt(parts[1]).value, background.1, foreground.1))
              && r.value.0 <= ParseInt(parts[0]).value
              && r.value.1 <= ParseInt(parts[1]).value
              && (2 * (r.value.0 + foreground.0) < 2 * background.0 + foreground.0
                  || r.value.0 + foreground.0 == background.0)
              && (2 * (r.value.1 + foreground.1) < 2 * background.1 + foreground.1
                  || r.value.1 + foreground.1 == background.1)
  {
    if coordinates.None? || coordinates.value == "" then Ok((0, 0))
    else if ',' !in coordinates.value then Err(InvalidOverlayCoordinates(coordinates.value))
    else
      var parts := Split(coordinates.value, ',');
      if AllInts(parts) then
        var x := ParseInt(parts[0]).value;
        var y := ParseInt(parts[1]).value;
        Ok((EdgeClamp(x, background.0, foreground.0), EdgeClamp(y, background.1, foreground.1)))
      else Err(InvalidOverlayCoordinates(coordinates.value))
  }
}
