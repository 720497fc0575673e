/**
 * The stop-list preparation of the custom-stops branch of `_apply_color_map`:
 * colour and transparency stops are collected into parallel location and
 * value lists, a stop at the same location as the one before replaces it,
 * an empty list fails the assertion, and a single stop is spread over the
 * whole range [0, 1]. The lists then feed an interpolant, which is not
 * part of this model.
 */
module ColorMap {
  import opened Wrappers
  import opened Strings

  /** The assertion `len(X) > 0` failing. */
  datatype Failure = AssertionFailed

  /** One prepared stop: its location in [0, 1] and its value. */
  datatype Stop<V> = Stop(location: real, value: V)

  /** The lists `X` (locations) and `Y` (values) handed to the interpolant. */
  datatype Ramp<V> = Ramp(locations: seq<real>, values: seq<V>)

  // ---------------------------------------------------------------------------
  // Reference definition: keep the last stop of every run of equal locations
  // ---------------------------------------------------------------------------

  /** Index i of s ends a run of equal locations. */
  ghost predicate RunEnd<V>(s: seq<Stop<V>>, i: int) {
    0 <= i < |s| && (i == |s| - 1 || s[i + 1].location != s[i].location)
  }

  /** The stops of s that end a run of equal locations, in order. */
  function KeepLast<V>(s: seq<Stop<V>>): (r: seq<Stop<V>>)
    ensures |r| <= |s|
    ensures s != [] ==> r != []
    decreases |s|
  {
    if |s| <= 1 then s
    else if s[0].location == s[1].location then KeepLast(s[1..])
    else [s[0]] + KeepLast(s[1..])
  }

  ghost predicate NoAdjacentRepeat<V>(s: seq<Stop<V>>) {
    forall i :: 0 <= i < |s| - 1 ==> s[i].location != s[i + 1].location
  }

  ghost predicate Sorted<V>(s: seq<Stop<V>>) {
    forall i, j :: 0 <= i < j < |s| ==> s[i].location <= s[j].location
  }

  ghost predicate StrictlySorted<V>(s: seq<Stop<V>>) {
    forall i, j :: 0 <= i < j < |s| ==> s[i].location < s[j].location
  }

  function Locations<V>(s: seq<Stop<V>>): (r: seq<real>)
    ensures |r| == |s|
    ensures forall j :: 0 <= j < |s| ==> r[j] == s[j].location
  {
    seq(|s|, j requires 0 <= j < |s| => s[j].location)
  }

  function Values<V>(s: seq<Stop<V>>): (r: seq<V>)
    ensures |r| == |s|
    ensures forall j :: 0 <= j < |s| ==> r[j] == s[j].value
  {
    seq(|s|, j requires 0 <= j < |s| => s[j].value)
  }

  /** The result of the stop loop and the checks after it. */
  function Prepare<V>(s: seq<Stop<V>>): Result<Ramp<V>, Failure> {
    var k := KeepLast(s);
    if |k| == 0 then Err(AssertionFailed)
    else if |k| == 1 then Ok(Ramp([0.0, 1.0], [k[0].value, k[0].value]))
    else Ok(Ramp(Locations(k), Values(k)))
  }

  // ---------------------------------------------------------------------------
  // Properties of the reference definition
  // ---------------------------------------------------------------------------

  /** The first kept stop is at the first location, and only the empty list keeps nothing. */
  lemma {:induction false} KeepLastHead<V>(s: seq<Stop<V>>)
    requires s != []
    ensures KeepLast(s) != []
    ensures KeepLast(s)[0].location == s[0].location
    decreases |s|
  {
    if |s| > 1 && s[0].location == s[1].location {
      KeepLastHead(s[1..]);
    }
  }

  /** The last stop seen is always kept, at the end. */
  lemma {:induction false} KeepLastLast<V>(s: seq<Stop<V>>)
    requires s != []
    ensures KeepLast(s) != []
    ensures KeepLast(s)[|KeepLast(s)| - 1] == s[|s| - 1]
    decreases |s|
  {
    if |s| > 1 {
      KeepLastLast(s[1..]);
    }
  }

  /** Appending one stop: it replaces the last kept stop when the locations agree. */
  lemma {:induction false} KeepLastSnoc<V>(s: seq<Stop<V>>, t: Stop<V>)
    ensures KeepLast(s + [t]) ==
            if s != [] && s[|s| - 1].location == t.location
            then KeepLast(s)[..|KeepLast(s)| - 1] + [t]
            else KeepLast(s) + [t]
    decreases |s|
  {
    if |s| == 0 {
      assert s + [t] == [t];
    } else if |s| == 1 {
      assert s + [t] == [s[0], t];
      assert (s + [t])[1..] == [t];
    } else {
      var u := s + [t];
      assert u[0] == s[0] && u[1] == s[1];
      assert u[1..] == s[1..] + [t];
      KeepLastSnoc(s[1..], t);
      KeepLastHead(s[1..]);
      if s[0].location != s[1].location {
        var k := KeepLast(s[1..]);
        assert KeepLast(s) == [s[0]] + k;
        assert ([s[0]] + k)[..|k|] == [s[0]] + k[..|k| - 1];
      }
    }
  }

  /** No two adjacent kept stops share a location. */
  lemma {:induction false} KeepLastNoAdjacentRepeat<V>(s: seq<Stop<V>>)
    ensures NoAdjacentRepeat(KeepLast(s))
    decreases |s|
  {
    if |s| > 1 {
      KeepLastNoAdjacentRepeat(s[1..]);
      if s[0].location != s[1].location {
        KeepLastHead(s[1..]);
      }
    }
  }

  /** A stop is kept exactly when it ends a run of equal locations. */
  lemma {:induction false} KeepLastMembers<V>(s: seq<Stop<V>>, t: Stop<V>)
    ensures t in KeepLast(s) <==> exists i :: RunEnd(s, i) && s[i] == t
    decreases |s|
  {
    if |s| == 1 {
      assert RunEnd(s, 0);
    } else if |s| > 1 {
      var tail := s[1..];
      KeepLastMembers(tail, t);
      if t in KeepLast(s) && (t in KeepLast(tail)) {
        var i :| RunEnd(tail, i) && tail[i] == t;
        assert RunEnd(s, i + 1);
      }
      if exists i :: RunEnd(s, i) && s[i] == t {
        var i :| RunEnd(s, i) && s[i] == t;
        if i > 0 {
          assert RunEnd(tail, i - 1);
        }
      }
    }
  }

  /** Stops already free of adjacent repeats pass through unchanged. */
  lemma {:induction false} KeepLastOfNoRepeat<V>(s: seq<Stop<V>>)
    requires NoAdjacentRepeat(s)
    ensures KeepLast(s) == s
    decreases |s|
  {
    if |s| > 1 {
      KeepLastOfNoRepeat(s[1..]);
      assert [s[0]] + s[1..] == s;
    }
  }

  /** Collapsing twice is collapsing once. */
  lemma KeepLastIdempotent<V>(s: seq<Stop<V>>)
    ensures KeepLast(KeepLast(s)) == KeepLast(s)
  {
    KeepLastNoAdjacentRepeat(s);
    KeepLastOfNoRepeat(KeepLast(s));
  }

  /** Stops sorted by location collapse to strictly increasing locations. */
  lemma {:induction false} KeepLastStrictlySorted<V>(s: seq<Stop<V>>)
    requires Sorted(s)
    ensures StrictlySorted(KeepLast(s))
    decreases |s|
  {
    if |s| > 1 {
      var tail := s[1..];
      assert Sorted(tail);
      KeepLastStrictlySorted(tail);
      if s[0].location != s[1].location {
        var k := KeepLast(tail);
        forall j | 0 <= j < |k| ensures s[0].location < k[j].location {
          KeepLastMembers(tail, k[j]);
          var i :| RunEnd(tail, i) && tail[i] == k[j];
          assert s[1].location <= s[i + 1].location;
        }
        assert KeepLast(s) == [s[0]] + k;
      }
    }
  }

  /** The prepared ramp: it fails exactly on an empty list, and otherwise
   *  holds at least two parallel entries with no repeated adjacent location,
   *  ending with the value of the last stop seen. */
  lemma PrepareShape<V>(s: seq<Stop<V>>)
    ensures Prepare(s).Err? <==> s == []
    ensures Prepare(s).Ok? ==>
              var r := Prepare(s).value;
              && |r.locations| == |r.values| >= 2
              && (forall i :: 0 <= i < |r.locations| - 1 ==> r.locations[i] != r.locations[i + 1])
              && r.values[|r.values| - 1] == s[|s| - 1].value
  {
    if s != [] {
      KeepLastLast(s);
      KeepLastNoAdjacentRepeat(s);
    }
  }

  /** A single stop is spread over locations 0 and 1 with its value twice. */
  lemma PrepareSingle<V>(t: Stop<V>)
    ensures Prepare([t]) == Ok(Ramp([0.0, 1.0], [t.value, t.value]))
  {
  }

  /** With at least two distinct run ends, the ramp is exactly the kept stops. */
  lemma PrepareKept<V>(s: seq<Stop<V>>)
    requires |KeepLast(s)| >= 2
    ensures Prepare(s) == Ok(Ramp(Locations(KeepLast(s)), Values(KeepLast(s))))
  {
  }

  /** Sorted stops give strictly increasing ramp locations, as the interpolant needs. */
  lemma PrepareSorted<V>(s: seq<Stop<V>>)
    requires Sorted(s) && s != []
    ensures Prepare(s).Ok?
    ensures forall i, j :: 0 <= i < j < |Prepare(s).value.locations| ==>
              Prepare(s).value.locations[i] < Prepare(s).value.locations[j]
  {
    KeepLastHead(s);
    KeepLastStrictlySorted(s);
  }

  // ---------------------------------------------------------------------------
  // The stop loop
  // ---------------------------------------------------------------------------

  /**
   * The loop over the stops building `X` and `Y` with `pop`/`append`,
   * followed by the non-empty assertion and the single-stop expansion.
   */
  method CollapseStops<V>(stops: seq<Stop<V>>) returns (r: Result<Ramp<V>, Failure>)
    ensures r == Prepare(stops)
  {
    var xs: seq<real> := [];
    var ys: seq<V> := [];
    for i := 0 to |stops|
      invariant xs == Locations(KeepLast(stops[..i]))
      invariant ys == Values(KeepLast(stops[..i]))
    {
      var location := stops[i].location;
      ghost var k := KeepLast(stops[..i]);
      if i > 0 {
        KeepLastLast(stops[..i]);
      }
      if |xs| > 0 && xs[|xs| - 1] == location {
        xs, ys := xs[..|xs| - 1], ys[..|ys| - 1];
      }
      xs, ys := xs + [location], ys + [stops[i].value];
      assert stops[..i + 1] == stops[..i] + [stops[i]];
      KeepLastSnoc(stops[..i], stops[i]);
      ghost var k' := KeepLast(stops[..i + 1]);
      assert xs == Locations(k') by {
        assert |xs| == |k'|;
        forall j | 0 <= j < |xs| ensures xs[j] == k'[j].location {
        }
      }
      assert ys == Values(k') by {
        assert |ys| == |k'|;
        forall j | 0 <= j < |ys| ensures ys[j] == k'[j].value {
        }
      }
    }
    assert stops[..|stops|] == stops;
    if |xs| == 0 {
      return Err(AssertionFailed);
    }
    if |xs| == 1 {
      xs, ys := [0.0, 1.0], [ys[0], ys[0]];
    }
    r := Ok(Ramp(xs, ys));
  }

  // ---------------------------------------------------------------------------
  // Turning descriptor stops into prepared stops
  // ---------------------------------------------------------------------------

  /** A colour stop as read from the gradient descriptor. */
  datatype ColorStop = ColorStop(location: int, color: seq<real>)

  /** A transparency stop: location in 1/4096 and opacity in percent. */
  datatype OpacityStop = OpacityStop(location: int, opacity: real)

  /** `int(location) / 4096.` */
  function StopLocation(location: int): real {
    location as real / 4096.0
  }

  /** The colour scale factor as written: the table has no entry for modes with alpha. */
  function ModeScalarAsWritten(mode: string): real {
    if mode == "RGB" then 1.0
    else if mode == "L" || mode == "CMYK" then 2.55
    else 1.0
  }

  /** The colour scale factor of the mode's colour bands, with any alpha suffix ignored. */
  function ModeScalar(mode: string): real {
    ModeScalarAsWritten(RStrip(mode, 'A'))
  }

  /** As written, 'LA' and 'CMYKA' colours are not scaled like their 'L' and 'CMYK' bands. */
  lemma ModeScalarAsWrittenMissesAlpha()
    ensures ModeScalarAsWritten("LA") == 1.0 != ModeScalarAsWritten("L")
    ensures ModeScalarAsWritten("CMYKA") == 1.0 != ModeScalarAsWritten("CMYK")
  {
  }

  /** Corrected: adding an alpha band never changes the factor, and plain modes keep the table's value. */
  lemma ModeScalarIgnoresAlpha(mode: string)
    ensures ModeScalar(mode + "A") == ModeScalar(mode)
    ensures !EndsWith(mode, 'A') ==> ModeScalar(mode) == ModeScalarAsWritten(mode)
  {
    var m := mode + "A";
    assert m[..|m| - 1] == mode;
  }

  /** The colour stops, each location scaled to [0, 1] and each component by the table's mode factor as written. */
  function ColorStops(mode: string, stops: seq<ColorStop>): (r: seq<Stop<seq<real>>>)
    ensures |r| == |stops|
    ensures forall j :: 0 <= j < |stops| ==>
              r[j].location == StopLocation(stops[j].location)
              && |r[j].value| == |stops[j].color|
              && forall c :: 0 <= c < |stops[j].color| ==> r[j].value[c] == ModeScalarAsWritten(mode) * stops[j].color[c]
  {
    seq(|stops|, j requires 0 <= j < |stops| =>
      Stop(StopLocation(stops[j].location),
           seq(|stops[j].color|, c requires 0 <= c < |stops[j].color| => ModeScalarAsWritten(mode) * stops[j].color[c])))
  }

  /** The transparency stops, each opacity in percent scaled to 0..255. */
  function OpacityStops(stops: seq<OpacityStop>): (r: seq<Stop<real>>)
    ensures |r| == |stops|
    ensures forall j :: 0 <= j < |stops| ==>
              r[j] == Stop(StopLocation(stops[j].location), stops[j].opacity * 2.55)
  {
    seq(|stops|, j requires 0 <= j < |stops| =>
      Stop(StopLocation(stops[j].location), stops[j].opacity * 2.55))
  }

  /**
   * The custom-stops branch up to the interpolants: the colour ramp always
   * (a missing colour list counts as empty), and a transparency ramp only when
   * the gradient has transparency stops and the mode has an alpha band.
   */
  method PrepareGradientStops(mode: string, colors: Option<seq<ColorStop>>,
                              transparency: Option<seq<OpacityStop>>)
    returns (r: Result<(Ramp<seq<real>>, Option<Ramp<real>>), Failure>)
    ensures colors.GetOr([]) == [] ==> r == Err(AssertionFailed)
    ensures r.Ok? <==> colors.GetOr([]) != [] &&
                       (transparency.Some? && EndsWith(mode, 'A') ==> transparency.value != [])
    ensures r.Ok? ==> Prepare(ColorStops(mode, colors.GetOr([]))) == Ok(r.value.0)
    ensures r.Ok? ==> (r.value.1.Some? <==> transparency.Some? && EndsWith(mode, 'A'))
    ensures r.Ok? && r.value.1.Some? ==> Prepare(OpacityStops(transparency.value)) == Ok(r.value.1.value)
  {
    var colorStops := ColorStops(mode, colors.GetOr([]));
    PrepareShape(colorStops);
    var colorRamp :- CollapseStops(colorStops);
    var alphaRamp: Option<Ramp<real>> := None;
    if transparency.Some? && EndsWith(mode, 'A') {
      var opacityStops := OpacityStops(transparency.value);
      PrepareShape(opacityStops);
      var ramp :- CollapseStops(opacityStops);
      alphaRamp := Some(ramp);
    }
    r := Ok((colorRamp, alphaRamp));
  }
}
