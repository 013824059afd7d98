/** The person tracker of the Halloween silhouette show
    (lib/wrappers/python/halloweengif.py): detections are bounding boxes;
    each is matched to an existing track by overlap (IoU) or, failing
    that, by the distance between box centres, or else opens a new track;
    every track keeps a bounded history of boxes. Tracks are kept in the
    order they were opened, which is the order a Python dict iterates in.
    Arithmetic is exact: the IoU is a rational number and distances are
    compared through their squares. */
module Tracker {
  import opened Common

  /** A detection: left, top, width, height. */
  datatype Box = Box(x: int, y: int, w: int, h: int)

  function Max(a: int, b: int): int { if a >= b then a else b }
  function Min(a: int, b: int): int { if a <= b then a else b }

  /** `calculate_iou`: the area the two boxes share over the area they
      cover together; 0 when they do not overlap or cover nothing. */
  function Iou(a: Box, b: Box): (r: real)
    ensures !Overlap(a, b) ==> r == 0.0
  {
    if !Overlap(a, b) then 0.0
    else
      var union := a.w * a.h + b.w * b.h - Intersection(a, b);
      if union > 0 then Intersection(a, b) as real / union as real else 0.0
  }

  /** The corners of the shared rectangle are not crossed (edges that only
      touch still count as overlapping, with zero area). */
  predicate Overlap(a: Box, b: Box)
  {
    Min(a.x + a.w, b.x + b.w) >= Max(a.x, b.x) && Min(a.y + a.h, b.y + b.h) >= Max(a.y, b.y)
  }

  function Intersection(a: Box, b: Box): (area: int)
    requires Overlap(a, b)
    ensures area >= 0
  {
    (Min(a.x + a.w, b.x + b.w) - Max(a.x, b.x)) * (Min(a.y + a.h, b.y + b.h) - Max(a.y, b.y))
  }

  /** The overlap does not depend on which box comes first. */
  lemma IouSymmetric(a: Box, b: Box)
    ensures Iou(a, b) == Iou(b, a)
  {
    if Overlap(a, b) {
      assert Intersection(a, b) == Intersection(b, a);
    }
  }

  /** For boxes of non-negative size the overlap is a fraction between 0
      and 1: the shared area is at most either box's own area. */
  lemma IouBounds(a: Box, b: Box)
    requires a.w >= 0 && a.h >= 0 && b.w >= 0 && b.h >= 0
    ensures 0.0 <= Iou(a, b) <= 1.0
  {
    if Overlap(a, b) {
      var dx := Min(a.x + a.w, b.x + b.w) - Max(a.x, b.x);
      var dy := Min(a.y + a.h, b.y + b.h) - Max(a.y, b.y);
      assert Intersection(a, b) == dx * dy;
      MulMono(dx, a.w, dy, a.h);
      MulMono(dx, b.w, dy, b.h);
      var union := a.w * a.h + b.w * b.h - Intersection(a, b);
      if union > 0 {
        FractionAtMostOne(Intersection(a, b), union);
      }
    }
  }

  lemma MulMono(a: int, b: int, c: int, d: int)
    requires 0 <= a <= b && 0 <= c <= d
    ensures 0 <= a * c <= b * d
  {
    assert a * c <= b * c;
    assert b * c <= b * d;
  }

  lemma FractionAtMostOne(n: int, d: int)
    requires 0 <= n <= d && d > 0
    ensures 0.0 <= n as real / d as real <= 1.0
  {
  }

  /** A box of positive size overlaps itself completely. */
  lemma IouSelf(a: Box)
    requires a.w > 0 && a.h > 0
    ensures Iou(a, a) == 1.0
  {
    assert Overlap(a, a);
    assert Intersection(a, a) == a.w * a.h;
    var union := a.w * a.h + a.w * a.h - Intersection(a, a);
    assert union == a.w * a.h;
    MulMono(1, a.w, 1, a.h);
    WholeFraction(union);
  }

  lemma WholeFraction(n: int)
    requires n > 0
    ensures n as real / n as real == 1.0
  {
  }

  /** The centre `get_person_id` uses: half the size rounded down (`//`). */
  function Center(b: Box): (c: (int, int))
    ensures b.w >= 0 && b.h >= 0 ==> b.x <= c.0 <= b.x + b.w && b.y <= c.1 <= b.y + b.h
  {
    (b.x + b.w / 2, b.y + b.h / 2)
  }

  /** The squared distance between two box centres. */
  function DistanceSquared(a: Box, b: Box): (d: int)
    ensures d >= 0
  {
    var dx := Center(a).0 - Center(b).0;
    var dy := Center(a).1 - Center(b).1;
    dx * dx + dy * dy
  }

  /** The IoU threshold a match must exceed. */
  const IouThreshold: real := 0.3

  /** A track that has at least one box to compare against. */
  predicate HasLast(history: map<int, seq<Box>>, id: int)
  {
    id in history && |history[id]| > 0
  }

  function Last(history: map<int, seq<Box>>, id: int): Box
    requires HasLast(history, id)
  {
    history[id][|history[id]| - 1]
  }

  /** The IoU of a detection with each track's last box; None for a track
      whose history is empty, which both loops of `get_person_id` skip. */
  function Overlaps(history: map<int, seq<Box>>, bbox: Box): int -> Option<real>
  {
    id => if HasLast(history, id) then Some(Iou(bbox, Last(history, id))) else None
  }

  /** The squared distance from a detection's centre to each track's last
      centre; None for a track with an empty history. */
  function Distances(history: map<int, seq<Box>>, bbox: Box): int -> Option<int>
  {
    id => if HasLast(history, id) then Some(DistanceSquared(bbox, Last(history, id))) else None
  }

  /** The IoU loop of `get_person_id` over the tracks `ids`, in order:
      the position of the match so far and the IoU it has to beat, which
      starts at 0.3. */
  function IouScan(ids: seq<int>, overlap: int -> Option<real>): (r: (Option<nat>, real))
    ensures r.0.None? ==> r.1 == IouThreshold
    ensures r.0.Some? ==> r.0.value < |ids| && overlap(ids[r.0.value]) == Some(r.1) && r.1 > IouThreshold
  {
    if ids == [] then (None, IouThreshold)
    else
      var (found, best) := IouScan(ids[..|ids| - 1], overlap);
      var id := ids[|ids| - 1];
      if overlap(id).Some? && overlap(id).value > best then (Some(|ids| - 1), overlap(id).value)
      else (found, best)
  }

  /** No track overlaps the detection by more than the IoU the loop ends
      with: with no match, no track's IoU exceeds 0.3; with a match, it has
      the largest IoU. */
  lemma {:induction false} IouScanBest(ids: seq<int>, overlap: int -> Option<real>)
    ensures forall j :: 0 <= j < |ids| && overlap(ids[j]).Some? ==> overlap(ids[j]).value <= IouScan(ids, overlap).1
  {
    if ids != [] {
      var n := |ids| - 1;
      IouScanBest(ids[..n], overlap);
      assert forall j :: 0 <= j < n ==> ids[j] == ids[..n][j];
    }
  }

  /** Every track before the match overlaps strictly less: on ties the
      first track in order wins. */
  lemma {:induction false} IouScanFirst(ids: seq<int>, overlap: int -> Option<real>)
    ensures var (found, best) := IouScan(ids, overlap);
      found.Some? ==> forall j :: 0 <= j < found.value && overlap(ids[j]).Some? ==> overlap(ids[j]).value < best
  {
    if ids != [] {
      var n := |ids| - 1;
      IouScanFirst(ids[..n], overlap);
      IouScanBest(ids[..n], overlap);
      assert forall j :: 0 <= j < n ==> ids[j] == ids[..n][j];
    }
  }

  /** The distance loop of `get_person_id`, run when the IoU loop found
      nothing: the position of the match so far and its squared distance
      (None stands for the starting infinity). A track qualifies when it is
      nearer than the current match and nearer than `threshold`, i.e. its
      squared distance is below the threshold's square. */
  function DistanceScan(ids: seq<int>, distance: int -> Option<int>, threshold: nat): (r: Option<(nat, int)>)
    ensures r.Some? ==> r.value.0 < |ids| && distance(ids[r.value.0]) == Some(r.value.1) && r.value.1 < threshold * threshold
  {
    if ids == [] then None
    else
      var found := DistanceScan(ids[..|ids| - 1], distance, threshold);
      var id := ids[|ids| - 1];
      if distance(id).Some?
        && (found.None? || distance(id).value < found.value.1)
        && distance(id).value < threshold * threshold
      then Some((|ids| - 1, distance(id).value))
      else found
  }

  /** The squared distance the loop ends with, or the threshold's square
      when it found nothing. */
  function Reach(found: Option<(nat, int)>, threshold: nat): int
  {
    if found.Some? then found.value.1 else threshold * threshold
  }

  /** No track is nearer than the match, and with no match no track is
      nearer than the threshold. */
  lemma {:induction false} DistanceScanNearest(ids: seq<int>, distance: int -> Option<int>, threshold: nat)
    ensures forall j :: 0 <= j < |ids| && distance(ids[j]).Some? ==>
      distance(ids[j]).value >= Reach(DistanceScan(ids, distance, threshold), threshold)
  {
    if ids != [] {
      var n := |ids| - 1;
      DistanceScanNearest(ids[..n], distance, threshold);
      assert forall j :: 0 <= j < n ==> ids[j] == ids[..n][j];
    }
  }

  /** Every track before the match is strictly farther: on ties the first
      track in order wins. */
  lemma {:induction false} DistanceScanFirst(ids: seq<int>, distance: int -> Option<int>, threshold: nat)
    ensures var found := DistanceScan(ids, distance, threshold);
      found.Some? ==> forall j :: 0 <= j < found.value.0 && distance(ids[j]).Some? ==> distance(ids[j]).value > found.value.1
  {
    if ids != [] {
      var n := |ids| - 1;
      DistanceScanFirst(ids[..n], distance, threshold);
      DistanceScanNearest(ids[..n], distance, threshold);
      assert forall j :: 0 <= j < n ==> ids[j] == ids[..n][j];
    }
  }

  /** The track the IoU loop picks. */
  function IouMatch(order: seq<int>, history: map<int, seq<Box>>, bbox: Box): (m: Option<int>)
    ensures m.Some? ==> m.value in order && HasLast(history, m.value)
  {
    var found := IouScan(order, Overlaps(history, bbox)).0;
    if found.Some? then Some(order[found.value]) else None
  }

  /** In terms of boxes: the IoU match overlaps the detection more than 0.3
      and at least as much as any other track's last box; with no match,
      no track's last box overlaps it more than 0.3. */
  lemma IouMatchBest(order: seq<int>, history: map<int, seq<Box>>, bbox: Box)
    ensures var m := IouMatch(order, history, bbox);
      forall j :: 0 <= j < |order| && HasLast(history, order[j]) ==>
        if m.Some? then IouThreshold < Iou(bbox, Last(history, m.value)) && Iou(bbox, Last(history, order[j])) <= Iou(bbox, Last(history, m.value))
        else Iou(bbox, Last(history, order[j])) <= IouThreshold
  {
    var overlap := Overlaps(history, bbox);
    IouScanBest(order, overlap);
    var found := IouScan(order, overlap);
    forall j | 0 <= j < |order| && HasLast(history, order[j])
      ensures overlap(order[j]) == Some(Iou(bbox, Last(history, order[j])))
    {
    }
  }

  /** The track the distance loop picks. */
  function DistanceMatch(order: seq<int>, history: map<int, seq<Box>>, bbox: Box, threshold: nat): (m: Option<int>)
    ensures m.Some? ==> m.value in order && HasLast(history, m.value)
  {
    var found := DistanceScan(order, Distances(history, bbox), threshold);
    if found.Some? then Some(order[found.value.0]) else None
  }

  /** In terms of boxes: the distance match's centre lies nearer than the
      threshold and no farther than any other track's last centre; with no
      match, every track's last centre lies at the threshold or beyond. */
  lemma DistanceMatchNearest(order: seq<int>, history: map<int, seq<Box>>, bbox: Box, threshold: nat)
    ensures var m := DistanceMatch(order, history, bbox, threshold);
      forall j :: 0 <= j < |order| && HasLast(history, order[j]) ==>
        if m.Some? then DistanceSquared(bbox, Last(history, m.value)) < threshold * threshold
          && DistanceSquared(bbox, Last(history, m.value)) <= DistanceSquared(bbox, Last(history, order[j]))
        else DistanceSquared(bbox, Last(history, order[j])) >= threshold * threshold
  {
    var distance := Distances(history, bbox);
    DistanceScanNearest(order, distance, threshold);
    forall j | 0 <= j < |order| && HasLast(history, order[j])
      ensures distance(order[j]) == Some(DistanceSquared(bbox, Last(history, order[j])))
    {
    }
  }

  /** The existing track `get_person_id` matches a detection to, if any:
      by IoU first, by distance only when no track overlaps enough. */
  function Match(order: seq<int>, history: map<int, seq<Box>>, bbox: Box, threshold: nat): (m: Option<int>)
    ensures m.Some? ==> m.value in order && HasLast(history, m.value)
  {
    var byIou := IouMatch(order, history, bbox);
    if byIou.Some? then byIou else DistanceMatch(order, history, bbox, threshold)
  }

  /** A history after one more box: the oldest box is dropped when the
      history grows beyond `cap`. */
  function Capped(h: seq<Box>, cap: nat): (r: seq<Box>)
    requires |h| <= cap + 1
    ensures |r| <= cap
    ensures |h| > 0 && cap > 0 ==> |r| > 0 && r[|r| - 1] == h[|h| - 1]
  {
    if |h| > cap then h[1..] else h
  }

  /** The capped history is the most recent part of the history: only the
      oldest box can be lost. */
  lemma CappedSuffix(h: seq<Box>, cap: nat)
    requires |h| <= cap + 1
    ensures var r := Capped(h, cap);
      |r| <= |h| && r == h[|h| - |r|..] && |h| - |r| <= 1
  {
  }

  /** The tracks that survive `cleanup_old_tracks`, in their order: a
      track goes when it is not active and its history is longer than
      `cap`. */
  function Surviving(ids: seq<int>, history: map<int, seq<Box>>, active: set<int>, cap: nat): (kept: seq<int>)
    requires forall i :: 0 <= i < |ids| ==> ids[i] in history
    ensures |kept| <= |ids|
  {
    if ids == [] then []
    else
      var init := Surviving(ids[..|ids| - 1], history, active, cap);
      var id := ids[|ids| - 1];
      if id !in active && |history[id]| > cap then init else init + [id]
  }

  /** A track survives exactly when it is active or within the cap. */
  lemma {:induction false} SurvivingMembers(ids: seq<int>, history: map<int, seq<Box>>, active: set<int>, cap: nat)
    requires forall i :: 0 <= i < |ids| ==> ids[i] in history
    ensures forall id :: id in Surviving(ids, history, active, cap) <==> id in ids && (id in active || |history[id]| <= cap)
  {
    if ids != [] {
      var n := |ids| - 1;
      SurvivingMembers(ids[..n], history, active, cap);
      assert forall x :: x in ids <==> x in ids[..n] || x == ids[n];
    }
  }

  /** The tracker's invariant: each track is listed once, the list and the
      histories name the same tracks, ids lie below `next_person_id`, and no
      history is longer than the cap. */
  ghost predicate Tracks(order: seq<int>, history: map<int, seq<Box>>, next: nat, cap: nat)
  {
    && (forall i, j :: 0 <= i < j < |order| ==> order[i] != order[j])
    && (forall i :: 0 <= i < |order| ==> order[i] in history)
    && (forall id :: id in history ==> id in order)
    && (forall id :: id in history ==> 0 <= id < next)
    && (forall id :: id in history ==> |history[id]| <= cap)
  }

  /** Adding a box to an existing track keeps the invariant. */
  lemma ExtendKeepsTracks(order: seq<int>, history: map<int, seq<Box>>, next: nat, cap: nat, id: int, bbox: Box)
    requires Tracks(order, history, next, cap) && id in history
    ensures Tracks(order, history[id := Capped(history[id] + [bbox], cap)], next, cap)
  {
  }

  /** Deleting tracks the way `cleanup_old_tracks` does keeps the invariant. */
  lemma CleanupKeepsTracks(order: seq<int>, history: map<int, seq<Box>>, next: nat, cap: nat, active: set<int>)
    requires Tracks(order, history, next, cap)
    ensures Tracks(Surviving(order, history, active, cap), history - Doomed(order, history, active, cap), next, cap)
  {
    SurvivingDistinct(order, history, active, cap);
    SurvivingMembers(order, history, active, cap);
    DoomedMembers(order, history, active, cap);
    var kept := Surviving(order, history, active, cap);
    var left := history - Doomed(order, history, active, cap);
    forall i | 0 <= i < |kept|
      ensures kept[i] in left
    {
      assert kept[i] in kept;
    }
  }

  class PersonTracker {
    /** `config.position_threshold` and `config.tracking_history_length`. */
    const positionThreshold: nat
    const historyLength: nat
    /** The keys of `tracking_history`, in insertion order. */
    var order: seq<int>
    var history: map<int, seq<Box>>
    var nextPersonId: nat

    ghost predicate Valid()
      reads this
    {
      Tracks(order, history, nextPersonId, historyLength)
    }

    constructor (positionThreshold: nat, historyLength: nat)
      ensures Valid() && order == [] && history == map[] && nextPersonId == 0
      ensures this.positionThreshold == positionThreshold && this.historyLength == historyLength
    {
      this.positionThreshold := positionThreshold;
      this.historyLength := historyLength;
      order := [];
      history := map[];
      nextPersonId := 0;
    }

    /** The IoU loop of `get_person_id`. */
    method MatchByIou(bbox: Box) returns (bestMatch: Option<int>)
      requires forall i :: 0 <= i < |order| ==> order[i] in history
      ensures bestMatch == IouMatch(order, history, bbox)
    {
      ghost var overlap := Overlaps(history, bbox);
      var found: Option<nat> := None;
      var bestIou := IouThreshold;
      for i := 0 to |order|
        invariant (found, bestIou) == IouScan(order[..i], overlap)
      {
        var personId := order[i];
        assert order[..i + 1][..i] == order[..i];
        var h := history[personId];
        if |h| == 0 {
          continue;
        }
        var iou := Iou(bbox, h[|h| - 1]);
        assert overlap(personId) == Some(iou);
        if iou > bestIou {
          bestIou := iou;
          found := Some(i);
        }
      }
      assert order[..|order|] == order;
      bestMatch := if found.Some? then Some(order[found.value]) else None;
    }

    /** The distance loop of `get_person_id`. */
    method MatchByDistance(bbox: Box) returns (bestMatch: Option<int>)
      requires forall i :: 0 <= i < |order| ==> order[i] in history
      ensures bestMatch == DistanceMatch(order, history, bbox, positionThreshold)
    {
      ghost var distances := Distances(history, bbox);
      var nearest: Option<(nat, int)> := None;
      for i := 0 to |order|
        invariant nearest == DistanceScan(order[..i], distances, positionThreshold)
      {
        var personId := order[i];
        assert order[..i + 1][..i] == order[..i];
        var h := history[personId];
        if |h| == 0 {
          continue;
        }
        var distance := DistanceSquared(bbox, h[|h| - 1]);
        assert distances(personId) == Some(distance);
        if (nearest.None? || distance < nearest.value.1) && distance < positionThreshold * positionThreshold {
          nearest := Some((i, distance));
        }
      }
      assert order[..|order|] == order;
      bestMatch := if nearest.Some? then Some(order[nearest.value.0]) else None;
    }

    /** `get_person_id`: the IoU match, else the distance match, else a new
        track with the next unused id; the box is added to the chosen
        track's history, capped. */
    method GetPersonId(bbox: Box) returns (id: int)
      requires Valid()
      modifies this
      ensures var found := Match(old(order), old(history), bbox, positionThreshold);
        id == if found.Some? then found.value else old(nextPersonId)
      ensures id in old(history) <==> id != old(nextPersonId)
      ensures id == old(nextPersonId) ==> nextPersonId == id + 1 && order == old(order) + [id]
      ensures id != old(nextPersonId) ==> nextPersonId == old(nextPersonId) && order == old(order)
      ensures history == old(history)[id := Capped((if id in old(history) then old(history)[id] else []) + [bbox], historyLength)]
      ensures historyLength > 0 ==> |history[id]| > 0 && history[id][|history[id]| - 1] == bbox
      ensures Valid()
    {
      var bestMatch := MatchByIou(bbox);
      if bestMatch.None? {
        bestMatch := MatchByDistance(bbox);
      }
      if bestMatch.Some? {
        id := bestMatch.value;
      } else {
        id := OpenTrack();
      }
      AddBox(id, bbox);
    }

    /** A new track under `next_person_id`, with an empty history. */
    method OpenTrack() returns (id: int)
      requires Valid()
      modifies this`order, this`history, this`nextPersonId
      ensures Valid()
      ensures id == old(nextPersonId) && id !in old(history)
      ensures nextPersonId == id + 1 && order == old(order) + [id] && history == old(history)[id := []]
    {
      id := nextPersonId;
      assert id !in order;
      order := order + [id];
      history := history[id := []];
      nextPersonId := nextPersonId + 1;
    }

    /** The end of `get_person_id`: the box is appended to the track's
        history, and the oldest box dropped when that exceeds the cap. */
    method AddBox(id: int, bbox: Box)
      requires Valid() && id in history
      modifies this`history
      ensures Valid()
      ensures history == old(history)[id := Capped(old(history)[id] + [bbox], historyLength)]
      ensures historyLength > 0 ==> |history[id]| > 0 && history[id][|history[id]| - 1] == bbox
    {
      ExtendKeepsTracks(order, history, nextPersonId, historyLength, id, bbox);
      history := history[id := Capped(history[id] + [bbox], historyLength)];
    }

    /** `cleanup_old_tracks`: every track that is not active and whose
        history is longer than the cap is deleted; the rest stay as they
        were, in their order. */
    method CleanupOldTracks(activeIds: set<int>)
      requires Valid()
      modifies this`order, this`history
      ensures Valid()
      ensures order == Surviving(old(order), old(history), activeIds, historyLength)
      ensures history == old(history) - Doomed(old(order), old(history), activeIds, historyLength)
      ensures nextPersonId == old(nextPersonId)
    {
      CleanupKeepsTracks(order, history, nextPersonId, historyLength, activeIds);
      var kept := PruneTracks(order, activeIds);
      order := kept;
    }

    /** The loop of `cleanup_old_tracks` over a snapshot of the track ids. */
    method PruneTracks(keys: seq<int>, activeIds: set<int>) returns (kept: seq<int>)
      requires forall i :: 0 <= i < |keys| ==> keys[i] in history
      requires forall i, j :: 0 <= i < j < |keys| ==> keys[i] != keys[j]
      modifies this`history
      ensures kept == Surviving(keys, old(history), activeIds, historyLength)
      ensures history == old(history) - Doomed(keys, old(history), activeIds, historyLength)
    {
      ghost var start := history;
      kept := [];
      for i := 0 to |keys|
        invariant kept == Surviving(keys[..i], start, activeIds, historyLength)
        invariant history == start - Doomed(keys[..i], start, activeIds, historyLength)
      {
        var personId := keys[i];
        assert keys[..i + 1] == keys[..i] + [personId];
        assert personId !in keys[..i];
        DoomedMembers(keys[..i], start, activeIds, historyLength);
        CleanupStep(keys[..i], personId, start, activeIds, historyLength);
        var stays := PruneTrack(personId, activeIds);
        MapMinus(start, Doomed(keys[..i], start, activeIds, historyLength), {personId});
        if stays {
          kept := kept + [personId];
        }
      }
      assert keys[..|keys|] == keys;
    }

    /** One pass of the `cleanup_old_tracks` loop: the track is deleted when
        it is not active and its history is longer than the cap. */
    method PruneTrack(personId: int, activeIds: set<int>) returns (stays: bool)
      requires personId in history
      modifies this`history
      ensures stays <==> personId in activeIds || |old(history)[personId]| <= historyLength
      ensures history == if stays then old(history) else old(history) - {personId}
    {
      stays := true;
      if personId !in activeIds {
        if |history[personId]| > historyLength {
          history := history - {personId};
          stays := false;
        }
      }
    }
  }

  /** The tracks `cleanup_old_tracks` deletes among `ids`. */
  function Doomed(ids: seq<int>, history: map<int, seq<Box>>, active: set<int>, cap: nat): set<int>
  {
    if ids == [] then {}
    else
      var id := ids[|ids| - 1];
      Doomed(ids[..|ids| - 1], history, active, cap)
        + (if id in history && id !in active && |history[id]| > cap then {id} else {})
  }

  /** A track is deleted exactly when it is inactive and over the cap. */
  lemma {:induction false} DoomedMembers(ids: seq<int>, history: map<int, seq<Box>>, active: set<int>, cap: nat)
    ensures forall id :: id in Doomed(ids, history, active, cap) <==> id in ids && id in history && id !in active && |history[id]| > cap
  {
    if ids != [] {
      var n := |ids| - 1;
      DoomedMembers(ids[..n], history, active, cap);
      assert forall x :: x in ids <==> x in ids[..n] || x == ids[n];
    }
  }

  lemma MapMinus<K, V>(m: map<K, V>, a: set<K>, b: set<K>)
    ensures (m - a) - b == m - (a + b)
  {
  }

  /** One more track considered by `cleanup_old_tracks`. */
  lemma CleanupStep(ids: seq<int>, id: int, history: map<int, seq<Box>>, active: set<int>, cap: nat)
    requires forall i :: 0 <= i < |ids| ==> ids[i] in history
    requires id in history
    ensures Doomed(ids + [id], history, active, cap)
      == Doomed(ids, history, active, cap) + (if id !in active && |history[id]| > cap then {id} else {})
    ensures Surviving(ids + [id], history, active, cap)
      == if id !in active && |history[id]| > cap then Surviving(ids, history, active, cap)
         else Surviving(ids, history, active, cap) + [id]
  {
    assert (ids + [id])[..|ids|] == ids;
  }

  /** `Surviving` keeps a list without repetitions free of them. */
  lemma {:induction false} SurvivingDistinct(ids: seq<int>, history: map<int, seq<Box>>, active: set<int>, cap: nat)
    requires forall i :: 0 <= i < |ids| ==> ids[i] in history
    requires forall i, j :: 0 <= i < j < |ids| ==> ids[i] != ids[j]
    ensures var kept := Surviving(ids, history, active, cap);
      forall i, j :: 0 <= i < j < |kept| ==> kept[i] != kept[j]
  {
    if ids != [] {
      var n := |ids| - 1;
      assert forall i :: 0 <= i < n ==> ids[..n][i] == ids[i];
      SurvivingDistinct(ids[..n], history, active, cap);
      SurvivingMembers(ids[..n], history, active, cap);
      assert ids[n] !in ids[..n];
      assert ids[n] !in Surviving(ids[..n], history, active, cap);
    }
  }

  /** Tracks built by `get_person_id` never exceed the cap, so
      `cleanup_old_tracks` deletes nothing from a valid tracker. */
  lemma CleanupKeepsCappedTracks(ids: seq<int>, history: map<int, seq<Box>>, active: set<int>, cap: nat)
    requires forall i :: 0 <= i < |ids| ==> ids[i] in history
    requires forall id :: id in history ==> |history[id]| <= cap
    ensures Surviving(ids, history, active, cap) == ids
    ensures history - Doomed(ids, history, active, cap) == history
  {
    forall i | 0 <= i < |ids|
      ensures |history[ids[i]]| <= cap
    {
      var id := ids[i];
      assert id in history;
    }
    SurvivingAll(ids, history, active, cap);
    DoomedMembers(ids, history, active, cap);
    var doomed := Doomed(ids, history, active, cap);
    forall x
      ensures x !in doomed
    {
      if x in history {
        assert |history[x]| <= cap;
      }
    }
    assert doomed == {};
  }

  lemma {:induction false} SurvivingAll(ids: seq<int>, history: map<int, seq<Box>>, active: set<int>, cap: nat)
    requires forall i :: 0 <= i < |ids| ==> ids[i] in history && |history[ids[i]]| <= cap
    ensures Surviving(ids, history, active, cap) == ids
  {
    if ids != [] {
      SurvivingAll(ids[..|ids| - 1], history, active, cap);
    }
  }

  /** `MultiPersonSegmentation.colors`: red, green, blue, then the three
      mixtures of two of them. */
  const Palette: seq<(Byte, Byte, Byte)> :=
    [(255, 0, 0), (0, 255, 0), (0, 0, 255), (255, 255, 0), (255, 0, 255), (0, 255, 255)]

  /** The colours handed out so far (`person_colors`). */
  class TrackColors {
    var handedOut: map<int, (Byte, Byte, Byte)>

    ghost predicate Valid()
      reads this
    {
      forall id :: id in handedOut ==> handedOut[id] == Palette[id % |Palette|]
    }

    constructor ()
      ensures Valid() && handedOut == map[]
    {
      handedOut := map[];
    }

    /** `get_track_color`: the palette entry of the id modulo 6, remembered
        on first use so a track keeps its colour. */
    method GetTrackColor(personId: int) returns (color: (Byte, Byte, Byte))
      requires Valid()
      modifies this
      ensures Valid()
      ensures color == Palette[personId % 6]
      ensures handedOut == old(handedOut)[personId := color]
    {
      if personId !in handedOut {
        var c := Palette[personId % |Palette|];
        handedOut := handedOut[personId := c];
      }
      color := handedOut[personId];
    }
  }
}
