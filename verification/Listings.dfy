/**
 Reading a table of rows, by line and by segment of the line, into one list: the list holds the
 row of every place of the table, once and in order.
 */
module Listings {
  import opened Text

  /** The number of a line, of a segment in it, of a row in that. */
  datatype Place = Place(line: nat, segment: nat, index: nat)

  type Table<R> = seq<seq<seq<R>>>

  /** The order of the text. */
  predicate Before(p: Place, q: Place) {
    p.line < q.line || (p.line == q.line && (p.segment < q.segment || (p.segment == q.segment && p.index < q.index)))
  }

  predicate IsPlace<R>(t: Table<R>, p: Place) {
    p.line < |t| && p.segment < |t[p.line]| && p.index < |t[p.line][p.segment]|
  }

  function At<R>(t: Table<R>, p: Place): R
    requires IsPlace(t, p)
  {
    t[p.line][p.segment][p.index]
  }

  predicate HoldsAt<R(==)>(t: Table<R>, p: Place, row: R) {
    IsPlace(t, p) && At(t, p) == row
  }

  function Flat<R>(ss: seq<seq<R>>): seq<R> {
    if ss == [] then [] else Flat(ss[..|ss| - 1]) + ss[|ss| - 1]
  }

  function Rows<R>(t: Table<R>): seq<R> {
    if t == [] then [] else Rows(t[..|t| - 1]) + Flat(t[|t| - 1])
  }

  predicate InOrder(places: seq<Place>) {
    forall i, j :: 0 <= i < j < |places| ==> Before(places[i], places[j])
  }

  lemma SamePlace(places: seq<Place>, i: nat, j: nat)
    requires InOrder(places) && i < |places| && j < |places| && places[i] == places[j]
    ensures i == j
  {
    var p := places[i];
    assert !Before(p, p);
  }

  /** `rows` are the rows of the places before `stop`, one each and in order. */
  ghost predicate ListsTo<R>(t: Table<R>, stop: Place, places: seq<Place>, rows: seq<R>) {
    && |places| == |rows|
    && InOrder(places)
    && (forall i :: 0 <= i < |places| ==> IsPlace(t, places[i]) && At(t, places[i]) == rows[i])
    && (forall p :: p in places <==> IsPlace(t, p) && Before(p, stop))
  }

  lemma ListedNext<R>(t: Table<R>, p: Place, places: seq<Place>, rows: seq<R>)
    requires IsPlace(t, p) && ListsTo(t, p, places, rows)
    ensures ListsTo(t, p.(index := p.index + 1), places + [p], rows + [At(t, p)])
  {
    var next, more := p.(index := p.index + 1), places + [p];
    forall i, j | 0 <= i < j < |more| ensures Before(more[i], more[j]) {
      assert more[i] == places[i] && places[i] in places;
    }
    forall q ensures q in more <==> IsPlace(t, q) && Before(q, next) {
      assert q in more <==> q in places || q == p;
      assert Before(q, next) <==> Before(q, p) || q == p;
    }
  }

  /** Only the places before the stop matter. */
  lemma MoveStop<R>(t: Table<R>, stop: Place, later: Place, places: seq<Place>, rows: seq<R>)
    requires ListsTo(t, stop, places, rows)
    requires forall p :: IsPlace(t, p) ==> (Before(p, stop) <==> Before(p, later))
    ensures ListsTo(t, later, places, rows)
  {
  }

  lemma {:induction false} SegmentListed<R>(t: Table<R>, line: nat, segment: nat, n: nat, places: seq<Place>, rows: seq<R>)
    returns (more: seq<Place>)
    requires line < |t| && segment < |t[line]| && n <= |t[line][segment]|
    requires ListsTo(t, Place(line, segment, 0), places, rows)
    ensures ListsTo(t, Place(line, segment, n), more, rows + t[line][segment][..n])
  {
    if n == 0 {
      more := places;
      assert rows + [] == rows;
    } else {
      var own, p := t[line][segment], Place(line, segment, n - 1);
      var init := SegmentListed(t, line, segment, n - 1, places, rows);
      ListedNext(t, p, init, rows + own[..n - 1]);
      more := init + [p];
      assert rows + own[..n - 1] + [own[n - 1]] == rows + own[..n];
    }
  }

  lemma {:induction false} LineListed<R>(t: Table<R>, line: nat, n: nat, places: seq<Place>, rows: seq<R>)
    returns (more: seq<Place>)
    requires line < |t| && n <= |t[line]|
    requires ListsTo(t, Place(line, 0, 0), places, rows)
    ensures ListsTo(t, Place(line, n, 0), more, rows + Flat(t[line][..n]))
  {
    if n == 0 {
      more := places;
      assert rows + [] == rows;
    } else {
      var own := t[line][n - 1];
      var init := LineListed(t, line, n - 1, places, rows);
      var before := Flat(t[line][..n - 1]);
      more := SegmentListed(t, line, n - 1, |own|, init, rows + before);
      assert own[..|own|] == own;
      assert t[line][..n][..n - 1] == t[line][..n - 1];
      Assoc(rows, before, own);
      MoveStop(t, Place(line, n - 1, |own|), Place(line, n, 0), more, rows + before + own);
    }
  }

  lemma {:induction false} LinesListed<R>(t: Table<R>, n: nat) returns (places: seq<Place>)
    requires n <= |t|
    ensures ListsTo(t, Place(n, 0, 0), places, Rows(t[..n]))
  {
    if n == 0 {
      places := [];
    } else {
      var own := t[n - 1];
      var init := LinesListed(t, n - 1);
      var before := Rows(t[..n - 1]);
      places := LineListed(t, n - 1, |own|, init, before);
      assert own[..|own|] == own;
      assert t[..n][..n - 1] == t[..n - 1];
      MoveStop(t, Place(n - 1, |own|, 0), Place(n, 0, 0), places, before + Flat(own));
    }
  }

  /** `places` are all the places of the table in order, and `rows` their rows. */
  ghost predicate Lists<R>(t: Table<R>, places: seq<Place>, rows: seq<R>) {
    && |places| == |rows|
    && InOrder(places)
    && (forall p :: p in places <==> IsPlace(t, p))
    && (forall i :: 0 <= i < |places| ==> IsPlace(t, places[i]) && At(t, places[i]) == rows[i])
  }

  lemma EveryPlaceOnce<R>(t: Table<R>) returns (places: seq<Place>)
    ensures Lists(t, places, Rows(t))
  {
    places := LinesListed(t, |t|);
    assert t[..|t|] == t;
  }
}
