/** The loop of cue_read in src/cue.c.  A track can be added to the library only when the start of
    the next one is known, so two tracks are kept back: `track`, which is being described, and
    `prev_track`, which waits for its end.  Lines are taken as already split into tokens. */
module Cue {
  import opened Common

  /** What becomes of a FILE line: the file is opened; it does not exist; a better cue sheet for
      it has been read instead; it is no audio file; or it cannot be stored. */
  datatype FileOutcome = Opened(duration: real) | Missing | OtherSheet | NotAudio | NotStored

  datatype Line =
    | Blank
    | Performer(name: string)
    | Title(name: string)
    | File(outcome: FileOutcome)
    | TrackLine(number: int)
    | Index(n: int, start: real)
    | Other

  datatype Track = Track(
    number: int,
    title: Option<string>,
    artist: string,
    album: string,
    albumArtist: string,
    start: real,
    duration: real)

  // ---------------------------------------------------------------- batch specification

  function NewTrack(number: int, album: string, albumArtist: string): Track {
    Track(number, None, albumArtist, album, albumArtist, 0.0, 0.0)
  }

  /** What a line after TRACK says about the track. */
  function Described(t: Track, line: Line): Track {
    match line
    case Performer(name) => t.(artist := name)
    case Title(name) => t.(title := Some(name))
    case Index(n, start) => if n == 1 then t.(start := start) else t
    case _ => t
  }

  function Optional(t: Option<Track>): seq<Track> {
    if t.None? then [] else [t.value]
  }

  /** The lines that belong to an opened file: up to the end, an empty line or another FILE. */
  function Body(lines: seq<Line>): seq<Line> {
    if lines == [] || lines[0].Blank? || lines[0].File? then [] else [lines[0]] + Body(lines[1..])
  }

  /** The tracks of a body, each described by the lines up to the next TRACK line; `open` is the
      track whose description the first lines continue. */
  function Sections(open: Option<Track>, body: seq<Line>, album: string, albumArtist: string): seq<Track>
    decreases |body|
  {
    if body == [] then Optional(open)
    else if body[0].TrackLine? then
      Optional(open) + Sections(Some(NewTrack(body[0].number, album, albumArtist)), body[1..], album, albumArtist)
    else
      Sections(if open.None? then None else Some(Described(open.value, body[0])), body[1..], album, albumArtist)
  }

  /** Each track lasts to the start of the next, the last to the end of the file. */
  function Timed(tracks: seq<Track>, end: real): (r: seq<Track>)
    ensures |r| == |tracks|
    ensures forall i :: 0 <= i < |r| ==>
      r[i] == tracks[i].(duration := (if i + 1 < |tracks| then tracks[i + 1].start else end) - tracks[i].start)
  {
    seq(|tracks|, i requires 0 <= i < |tracks| =>
      tracks[i].(duration := (if i + 1 < |tracks| then tracks[i + 1].start else end) - tracks[i].start))
  }

  /** The tracks added and the result of cue_read. */
  function Batch(lines: seq<Line>, album: string, albumArtist: string): (seq<Track>, bool)
    decreases |lines|
  {
    if lines == [] || lines[0].Blank? then ([], true)
    else if lines[0].File? then
      var outcome := lines[0].outcome;
      if outcome.Opened? then (Timed(Sections(None, Body(lines[1..]), album, albumArtist), outcome.duration), true)
      else ([], !outcome.Missing?)
    else
      Batch(lines[1..],
            if lines[0].Title? then lines[0].name else album,
            if lines[0].Performer? then lines[0].name else albumArtist)
  }

  /** In the body of an opened file, no INDEX 01 comes before the first TRACK. */
  predicate IndexesFollow(body: seq<Line>) {
    body == [] || body[0].TrackLine? || (!(body[0].Index? && body[0].n == 1) && IndexesFollow(body[1..]))
  }

  predicate Wellformed(lines: seq<Line>) {
    lines == [] || lines[0].Blank?
    || (if lines[0].File? then lines[0].outcome.Opened? ==> IndexesFollow(Body(lines[1..])) else Wellformed(lines[1..]))
  }

  // ---------------------------------------------------------------- what the batch promises

  function Numbers(body: seq<Line>): seq<int> {
    if body == [] then [] else (if body[0].TrackLine? then [body[0].number] else []) + Numbers(body[1..])
  }

  function TrackNumbers(tracks: seq<Track>): seq<int> {
    if tracks == [] then [] else [tracks[0].number] + TrackNumbers(tracks[1..])
  }

  lemma {:induction false} NumbersConcat(a: seq<Track>, b: seq<Track>)
    ensures TrackNumbers(a + b) == TrackNumbers(a) + TrackNumbers(b)
    decreases |a|
  {
    if a == [] {
      assert a + b == b;
    } else {
      assert (a + b)[1..] == a[1..] + b;
      NumbersConcat(a[1..], b);
    }
  }

  lemma OneNumber(t: Track)
    ensures TrackNumbers([t]) == [t.number]
  {
    assert [t][1..] == [];
  }

  lemma {:induction false} SectionNumbers(open: Option<Track>, body: seq<Line>, album: string, albumArtist: string)
    ensures TrackNumbers(Sections(open, body, album, albumArtist)) == TrackNumbers(Optional(open)) + Numbers(body)
    decreases |body|
  {
    if body == [] {
      assert TrackNumbers(Optional(open)) + [] == TrackNumbers(Optional(open));
    } else if body[0].TrackLine? {
      var next := NewTrack(body[0].number, album, albumArtist);
      SectionNumbers(Some(next), body[1..], album, albumArtist);
      NumbersConcat(Optional(open), Sections(Some(next), body[1..], album, albumArtist));
      OneNumber(next);
    } else {
      var open' := if open.None? then None else Some(Described(open.value, body[0]));
      SectionNumbers(open', body[1..], album, albumArtist);
      assert Numbers(body) == [] + Numbers(body[1..]) == Numbers(body[1..]);
      SameNumber(open, open');
    }
  }

  lemma SameNumber(t: Option<Track>, u: Option<Track>)
    requires t.Some? == u.Some? && (t.Some? ==> t.value.number == u.value.number)
    ensures TrackNumbers(Optional(t)) == TrackNumbers(Optional(u))
  {
    if t.Some? {
      OneNumber(t.value);
      OneNumber(u.value);
    }
  }

  lemma {:induction false} TimedNumbers(tracks: seq<Track>, timed: seq<Track>)
    requires |tracks| == |timed| && forall i :: 0 <= i < |tracks| ==> tracks[i].number == timed[i].number
    ensures TrackNumbers(tracks) == TrackNumbers(timed)
    decreases |tracks|
  {
    if tracks != [] {
      TimedNumbers(tracks[1..], timed[1..]);
    }
  }

  /** Every TRACK line after FILE yields exactly one track, in order. */
  lemma {:induction false} OneTrackPerLine(body: seq<Line>, album: string, albumArtist: string, end: real)
    ensures TrackNumbers(Timed(Sections(None, body, album, albumArtist), end)) == Numbers(body)
  {
    SectionNumbers(None, body, album, albumArtist);
    TimedNumbers(Sections(None, body, album, albumArtist), Timed(Sections(None, body, album, albumArtist), end));
  }

  function TotalDuration(tracks: seq<Track>): real {
    if tracks == [] then 0.0 else tracks[0].duration + TotalDuration(tracks[1..])
  }

  lemma TimedTail(tracks: seq<Track>, end: real)
    requires tracks != []
    ensures Timed(tracks, end)[1..] == Timed(tracks[1..], end)
  {
  }

  /** The durations add up to what the file lasts after the first start. */
  lemma {:induction false} DurationsSum(tracks: seq<Track>, end: real)
    requires tracks != []
    ensures TotalDuration(Timed(tracks, end)) == end - tracks[0].start
    decreases |tracks|
  {
    var timed := Timed(tracks, end);
    TimedTail(tracks, end);
    if |tracks| == 1 {
      assert timed[1..] == [];
    } else {
      DurationsSum(tracks[1..], end);
    }
  }

  /** No duration is negative if and only if the starts do not decrease and lie within the file. */
  lemma DurationsNonNegative(tracks: seq<Track>, end: real)
    ensures (forall i :: 0 <= i < |tracks| ==> Timed(tracks, end)[i].duration >= 0.0) <==>
      && (forall i, j :: 0 <= i < j < |tracks| ==> tracks[i].start <= tracks[j].start)
      && (tracks != [] ==> tracks[|tracks| - 1].start <= end)
  {
    if forall i :: 0 <= i < |tracks| ==> Timed(tracks, end)[i].duration >= 0.0 {
      forall i, j | 0 <= i < j < |tracks|
        ensures tracks[i].start <= tracks[j].start
      {
        StartsAscend(tracks, end, i, j);
      }
      if tracks != [] {
        assert Timed(tracks, end)[|tracks| - 1].duration >= 0.0;
      }
    }
  }

  lemma {:induction false} StartsAscend(tracks: seq<Track>, end: real, i: nat, j: nat)
    requires forall k :: 0 <= k < |tracks| ==> Timed(tracks, end)[k].duration >= 0.0
    requires i < j < |tracks|
    ensures tracks[i].start <= tracks[j].start
    decreases j - i
  {
    assert Timed(tracks, end)[i].duration >= 0.0;
    if i + 1 < j {
      StartsAscend(tracks, end, i + 1, j);
    }
  }

  // ---------------------------------------------------------------- the pipeline

  /** The tracks kept back, with what the rest of the body still adds. */
  function Pending(
      prev: Option<Track>, track: Option<Track>, body: seq<Line>, album: string, albumArtist: string): seq<Track>
  {
    Optional(prev) + Sections(track, body, album, albumArtist)
  }

  /** prev_track is complete once track is. */
  lemma TimedFirst(t: Track, u: Track, more: seq<Track>, end: real)
    ensures Timed([t, u] + more, end) == [t.(duration := u.start - t.start)] + Timed([u] + more, end)
  {
    var all, rest := [t, u] + more, [u] + more;
    assert all[0] == t && all[1..] == rest;
    var timed := Timed(all, end);
    TimedTail(all, end);
    assert timed[0] == t.(duration := u.start - t.start);
    assert timed == [timed[0]] + timed[1..];
  }

  /** The flush at the end of the file. */
  method Flush(prev: Option<Track>, track: Option<Track>, duration: real) returns (added: seq<Track>)
    requires prev.Some? ==> track.Some?
    ensures added == Timed(Optional(prev) + Optional(track), duration)
  {
    added := [];
    if prev.Some? {
      added := added + [prev.value.(duration := track.value.start - prev.value.start)];
    }
    if track.Some? {
      added := added + [track.value.(duration := duration - track.value.start)];
    }
  }

  /** The lines after FILE: the loop with the two slots.  An INDEX 01 before the first TRACK
      dereferences `track` while it is null; `sound` is false then. */
  method ReadBody(lines: seq<Line>, album: string, albumArtist: string, duration: real)
    returns (added: seq<Track>, sound: bool)
    ensures sound <==> IndexesFollow(Body(lines))
    ensures sound ==> added == Timed(Sections(None, Body(lines), album, albumArtist), duration)
  {
    added := [];
    var prev, track: Option<Track> := None, None;
    var rest := lines;
    ghost var all := Sections(None, Body(lines), album, albumArtist);
    assert [] + all == all;
    assert [] + Timed(all, duration) == Timed(all, duration);
    while rest != [] && !rest[0].Blank? && !rest[0].File?
      invariant prev.Some? ==> track.Some?
      invariant IndexesFollow(Body(lines)) <==> track.Some? || IndexesFollow(Body(rest))
      invariant added + Timed(Pending(prev, track, Body(rest), album, albumArtist), duration) == Timed(all, duration)
      decreases |rest|
    {
      var line := rest[0];
      ghost var body := Body(rest[1..]);
      assert Body(rest)[0] == line && Body(rest)[1..] == body;
      if line.TrackLine? {
        ghost var next := Some(NewTrack(line.number, album, albumArtist));
        ghost var more := Sections(next, body, album, albumArtist);
        PendingTrack(added, prev, track, more, duration);
        if track.Some? {
          if prev.Some? {
            added := added + [prev.value.(duration := track.value.start - prev.value.start)];
          }
          prev := track;
        }
        track := Some(NewTrack(line.number, album, albumArtist));
      } else if track.Some? {
        track := Some(Described(track.value, line));
      } else if line.Index? && line.n == 1 {
        return added, false;
      }
      rest := rest[1..];
    }
    assert Body(rest) == [];
    var last := Flush(prev, track, duration);
    added, sound := added + last, true;
  }

  /** A TRACK line moves the pipeline on by one. */
  lemma PendingTrack(added: seq<Track>, prev: Option<Track>, track: Option<Track>, more: seq<Track>, end: real)
    requires prev.Some? ==> track.Some?
    ensures added + Timed(Optional(prev) + (Optional(track) + more), end)
         == (if prev.None? then added else added + [prev.value.(duration := track.value.start - prev.value.start)])
            + Timed(Optional(track) + more, end)
  {
    var rest := Optional(track) + more;
    if prev.Some? {
      TimedFirst(prev.value, track.value, more, end);
      TwoFirst(prev.value, track.value, more);
      Regroup(added, [prev.value.(duration := track.value.start - prev.value.start)], Timed(rest, end));
    } else {
      NoneFirst(rest);
    }
  }

  lemma TwoFirst(a: Track, b: Track, more: seq<Track>)
    ensures [a] + ([b] + more) == [a, b] + more
  {
  }

  lemma NoneFirst(rest: seq<Track>)
    ensures [] + rest == rest
  {
  }

  lemma Regroup(a: seq<Track>, b: seq<Track>, c: seq<Track>)
    ensures a + (b + c) == a + b + c
  {
  }

  /** cue_read: the header lines, then FILE; None if a null pointer is dereferenced. */
  method CueRead(lines: seq<Line>) returns (outcome: Option<(seq<Track>, bool)>)
    ensures outcome == if Wellformed(lines) then Some(Batch(lines, "", "")) else None
  {
    var album, albumArtist, rest := "", "", lines;
    while rest != [] && !rest[0].Blank?
      invariant Wellformed(rest) == Wellformed(lines)
      invariant Batch(rest, album, albumArtist) == Batch(lines, "", "")
      decreases |rest|
    {
      var line := rest[0];
      if line.File? {
        if line.outcome.Opened? {
          var added, sound := ReadBody(rest[1..], album, albumArtist, line.outcome.duration);
          return if sound then Some((added, true)) else None;
        }
        return Some(([], !line.outcome.Missing?));
      } else if line.Performer? {
        albumArtist := line.name;
      } else if line.Title? {
        album := line.name;
      }
      rest := rest[1..];
    }
    return Some(([], true));
  }
}
