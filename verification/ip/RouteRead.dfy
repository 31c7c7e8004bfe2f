/** Reading the table as text: a window of the whole, through a buffer of any size. */
module RouteRead {
  import opened RouteTree
  import opened RouteTable
  import opened RouteWalk

  type Text = string

  /** How a route is printed. */
  type Format = Route -> Text

  /** `Routewalk`: what is in the buffer, its size, and what is still to be skipped, as a negative
      number. */
  datatype Walker = Walker(buf: Text, n: nat, o: int)

  predicate Open(rw: Walker) {
    |rw.buf| < rw.n
  }

  /** `sprintroute`: the line is printed as far as the buffer goes, leaving a byte for its end, and what
      is to be skipped of it is taken out again. */
  function Sprint(line: Text, rw: Walker): (rw': Walker)
    requires Open(rw)
    ensures Open(rw') && rw'.n == rw.n
  {
    var room := rw.n - |rw.buf| - 1;
    var t := if |line| <= room then line else line[..room];
    if rw.o >= 0 then rw.(buf := rw.buf + t)
    else if |t| > -rw.o then rw.(buf := rw.buf + t[-rw.o..], o := rw.o + |t|)
    else rw.(o := rw.o + |t|)
  }

  /** The lines of some routes; false when the buffer is full. */
  function Walk(routes: seq<Route>, f: Format, rw: Walker): (r: (bool, Walker))
    ensures r.0 ==> Open(r.1)
  {
    if !Open(rw) then (false, rw)
    else if routes == [] then (true, rw)
    else Walk(routes[1..], f, Sprint(f(routes[0]), rw))
  }

  lemma {:induction false} WalkJoin(a: seq<Route>, b: seq<Route>, f: Format, rw: Walker)
    ensures var r := Walk(a, f, rw); Walk(a + b, f, rw) == if r.0 then Walk(b, f, r.1) else r
  {
    if a == [] {
      assert a + b == b;
    } else if Open(rw) {
      assert (a + b)[0] == a[0] && (a + b)[1..] == a[1..] + b;
      WalkJoin(a[1..], b, f, Sprint(f(a[0]), rw));
    }
  }

  /** A buffer that takes anything is never full: a byte always stays for the end. */
  lemma {:induction false} NeverFull(routes: seq<Route>, f: Format, rw: Walker)
    ensures Walk(routes, f, rw).0 <==> Open(rw)
  {
    if routes != [] && Open(rw) {
      NeverFull(routes[1..], f, Sprint(f(routes[0]), rw));
    }
  }

  /** Nothing follows a full buffer. */
  lemma {:induction false} WalkStops(ts: seq<Tree>, k: nat, m: nat, f: Format, rw: Walker)
    requires k <= m <= |ts| && !Walk(WalkTo(ts, k), f, rw).0
    ensures Walk(WalkTo(ts, m), f, rw) == Walk(WalkTo(ts, k), f, rw)
  {
    if k < m {
      WalkStops(ts, k, m - 1, f, rw);
      WalkJoin(WalkTo(ts, m - 1), Listing(ts[m - 1], m - 1), f, rw);
    }
  }

  function TextOf(routes: seq<Route>, f: Format): Text {
    if routes == [] then "" else f(routes[0]) + TextOf(routes[1..], f)
  }

  function Past(t: Text, o: int): Text {
    if o >= 0 then t else if -o > |t| then "" else t[-o..]
  }

  function Fit(t: Text, m: nat): Text {
    if |t| <= m then t else t[..m]
  }

  /** A line that starts before the offset fits the buffer. */
  predicate Skippable(routes: seq<Route>, f: Format, o: int, n: nat) {
    o < 0 && routes != [] ==> |f(routes[0])| < n && Skippable(routes[1..], f, o + |f(routes[0])|, n)
  }

  lemma FitTwice(buf: Text, line: Text, rest: Text, m: nat)
    ensures buf + Fit(line, m) + Fit(rest, m - |Fit(line, m)|) == buf + Fit(line + rest, m)
  {
    assert Fit(line, m) + Fit(rest, m - |Fit(line, m)|) == Fit(line + rest, m);
  }

  lemma PastLine(line: Text, rest: Text, o: int)
    requires o < 0
    ensures Past(line + rest, o) == if |line| > -o then line[-o..] + rest else Past(rest, o + |line|)
  {
  }

  /** What is read of a text. */
  function Read(rw: Walker, t: Text): Text
    requires Open(rw)
  {
    rw.buf + Fit(Past(t, rw.o), rw.n - 1 - |rw.buf|)
  }

  /** A line printed, and then the rest read, is all of it read. */
  lemma ReadLine(rw: Walker, line: Text, rest: Text)
    requires Open(rw) && (rw.o < 0 ==> rw.buf == "" && |line| < rw.n)
    ensures Read(Sprint(line, rw), rest) == Read(rw, line + rest)
    ensures var rw' := Sprint(line, rw); rw'.o < 0 ==> rw'.buf == "" && rw'.o == rw.o + |line|
  {
    if rw.o >= 0 {
      FitTwice(rw.buf, line, rest, rw.n - 1 - |rw.buf|);
    } else {
      PastLine(line, rest, rw.o);
      if |line| > -rw.o {
        SkipPart(rw, line, rest);
      }
    }
  }

  /** The line the offset falls in. */
  lemma SkipPart(rw: Walker, line: Text, rest: Text)
    requires Open(rw) && rw.o < 0 && rw.buf == "" && |line| < rw.n && |line| > -rw.o
    ensures Read(Sprint(line, rw), rest) == Fit(line[-rw.o..] + rest, rw.n - 1)
  {
    var part := line[-rw.o..];
    assert Sprint(line, rw) == Walker(part, rw.n, rw.o + |line|);
    assert Fit(part, rw.n - 1) == part;
    FitTwice("", part, rest, rw.n - 1);
  }

  /** What is read is the text from the offset on, as much of it as fits with a byte to spare. */
  lemma {:induction false} WalkText(routes: seq<Route>, f: Format, rw: Walker)
    requires Open(rw) && (rw.o < 0 ==> rw.buf == "") && Skippable(routes, f, rw.o, rw.n)
    ensures Walk(routes, f, rw).1.buf == Read(rw, TextOf(routes, f))
  {
    if routes != [] {
      ReadLine(rw, f(routes[0]), TextOf(routes[1..], f));
      WalkText(routes[1..], f, Sprint(f(routes[0]), rw));
    }
  }

  lemma WalkFresh(routes: seq<Route>, f: Format, offset: nat, n: nat)
    ensures var buf := Walk(routes, f, Walker("", n, 0 - offset)).1.buf;
      && (n == 0 ==> buf == "")
      && (n > 0 && Skippable(routes, f, 0 - offset, n) ==> buf == Fit(Past(TextOf(routes, f), 0 - offset), n - 1))
  {
    var rw := Walker("", n, 0 - offset);
    if n > 0 && Skippable(routes, f, 0 - offset, n) {
      WalkText(routes, f, rw);
      assert Read(rw, TextOf(routes, f)) == Fit(Past(TextOf(routes, f), 0 - offset), n - 1);
    }
  }

  /** A buffer shorter than a line that must be skipped loses count: nothing is read though there is
      more text. */
  lemma LongLine(x: Route, f: Format)
    requires |f(x)| == 3
    ensures Walk([x], f, Walker("", 2, -2)).1.buf == "" && Past(TextOf([x], f), -2) != ""
  {
    assert [x][1..] == [];
  }
}
