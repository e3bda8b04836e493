/** The loop of `readSequence` over every cursor it can come to, and when it never ends. */
module DerLoop {
  import opened Octets
  import opened Der

  /** Where a turn of the loop leads: to a cursor, to an exception, or to an end that is not a number. */
  datatype Turn = At(cursor: int) | Raises(error: DerError) | NotANumber

  /**
   * One turn at any cursor. One before the buffer, the tag is undefined and the length is read from the start of the
   * buffer, as behind one more octet; further before it the length is undefined too.
   */
  function TurnFrom(buffer: seq<Byte>, cursor: int): Turn {
    if cursor >= 0 then
      var item := TlvAt(buffer, cursor);
      if item.Err? then Raises(item.error) else At(item.value.end)
    else if cursor == -1 then
      var item := TlvAt([0] + buffer, 0);
      if item.Err? then Raises(item.error) else At(item.value.end - 1)
    else NotANumber
  }

  datatype State = Running(cursor: int) | Ended | Threw(error: DerError)

  function Settled(t: Turn, end: int): State {
    match t
    case At(cursor) => if cursor < end then Running(cursor) else Ended
    case Raises(error) => Threw(error)
    case NotANumber => Ended
  }

  function Next(buffer: seq<Byte>, s: State, end: int): State {
    if s.Running? then Settled(TurnFrom(buffer, s.cursor), end) else s
  }

  function LoopBody(buffer: seq<Byte>, end: int): State -> State {
    s => Next(buffer, s, end)
  }

  function Repeated(f: State -> State, s: State, n: nat): State {
    if n == 0 then s else f(Repeated(f, s, n - 1))
  }

  /** The loop from a cursor after n turns. */
  function After(buffer: seq<Byte>, start: int, end: int, n: nat): State {
    Repeated(LoopBody(buffer, end), Settled(At(start), end), n)
  }

  ghost predicate NeverEnds(buffer: seq<Byte>, start: int, end: int) {
    forall n: nat :: After(buffer, start, end, n).Running?
  }

  // ----- What the reader returns is what the loop comes to -----

  lemma {:induction false} RepeatedFirst(f: State -> State, s: State, n: nat)
    ensures Repeated(f, s, n + 1) == Repeated(f, f(s), n)
  {
    if n > 0 {
      RepeatedFirst(f, s, n - 1);
    }
  }

  lemma FirstTurn(buffer: seq<Byte>, start: int, end: int, next: int, n: nat)
    requires start < end && TurnFrom(buffer, start) == At(next)
    ensures After(buffer, start, end, n + 1) == After(buffer, next, end, n)
  {
    RepeatedFirst(LoopBody(buffer, end), Running(start), n);
  }

  /** Where the reader returns items or fails, so does the loop; else the loop comes to where the reader stops. */
  lemma {:induction false} ReaderFollowsLoop(buffer: seq<Byte>, cursor: nat, end: int) returns (n: nat)
    ensures var r, s := ItemsFrom(buffer, cursor, end), After(buffer, cursor, end, n);
      && (r.All? ==> n == |r.items| && s == Ended)
      && (r.Failed? ==> s == Threw(r.error))
      && (r.NoProgress? ==>
          && s.Running? && s.cursor >= 0
          && TlvAt(buffer, s.cursor).Ok? && TlvAt(buffer, s.cursor).value.end <= s.cursor)
    decreases end - cursor
  {
    n := 0;
    if cursor < end {
      var item := TlvAt(buffer, cursor);
      if item.Err? {
        n := 1;
        assert After(buffer, cursor, end, 0) == Running(cursor);
      } else if item.value.end > cursor {
        var m := ReaderFollowsLoop(buffer, item.value.end, end);
        FirstTurn(buffer, cursor, end, item.value.end, m);
        n := m + 1;
      }
    }
  }

  /** Nothing changes once the loop has ended. */
  ghost predicate KeepsEnd(f: State -> State) {
    forall s: State :: !s.Running? ==> f(s) == s
  }

  lemma {:induction false} StaysEnded(f: State -> State, s: State, m: nat, n: nat)
    requires KeepsEnd(f) && m <= n && !Repeated(f, s, m).Running?
    ensures Repeated(f, s, n) == Repeated(f, s, m)
  {
    if m < n {
      StaysEnded(f, s, m, n - 1);
    }
  }

  /** So it only runs for ever where the reader stops without progress. */
  lemma NeverEndsWithoutProgress(buffer: seq<Byte>, cursor: nat, end: int)
    requires NeverEnds(buffer, cursor, end)
    ensures ItemsFrom(buffer, cursor, end).NoProgress?
  {
    var n := ReaderFollowsLoop(buffer, cursor, end);
    assert After(buffer, cursor, end, n).Running?;
  }

  // ----- When it never ends -----

  lemma {:induction false} SameLater(f: State -> State, s: State, i: nat, j: nat, k: nat)
    requires Repeated(f, s, i) == Repeated(f, s, j)
    ensures Repeated(f, s, i + k) == Repeated(f, s, j + k)
  {
    if k > 0 {
      SameLater(f, s, i, j, k - 1);
    }
  }

  /** Coming to a cursor twice, the loop goes round for ever. */
  lemma {:induction false} RoundAndRound(f: State -> State, s: State, i: nat, j: nat, n: nat)
    requires KeepsEnd(f) && i < j && Repeated(f, s, i) == Repeated(f, s, j) && Repeated(f, s, j).Running?
    ensures Repeated(f, s, n).Running?
  {
    if n <= j {
      if !Repeated(f, s, n).Running? {
        StaysEnded(f, s, n, j);
      }
    } else {
      RoundAndRound(f, s, i, j, n - (j - i));
      SameLater(f, s, i, j, n - j);
    }
  }

  function Cursors(buffer: seq<Byte>, start: int, end: int, n: nat): (cs: seq<int>)
    requires forall k: nat :: k < n ==> After(buffer, start, end, k).Running?
    ensures |cs| == n && forall k :: 0 <= k < n ==> cs[k] == After(buffer, start, end, k).cursor
  {
    seq(n, k requires 0 <= k < n => After(buffer, start, end, k).cursor)
  }

  lemma {:induction false} DistinctSize(s: seq<int>)
    requires forall i, j :: 0 <= i < j < |s| ==> s[i] != s[j]
    ensures |set x | x in s| == |s|
  {
    if s != [] {
      var init, last := s[..|s| - 1], s[|s| - 1];
      DistinctSize(init);
      assert s == init + [last];
      assert (set x | x in s) == (set x | x in init) + {last};
      assert last !in init;
    }
  }

  /** The cursors from -1 on and below m. */
  function CursorsBelow(m: nat): (r: set<int>)
    ensures |r| == m + 1 && forall x :: x in r <==> -1 <= x < m
  {
    if m == 0 then {-1} else CursorsBelow(m - 1) + {m - 1}
  }

  lemma SubsetSize(a: set<int>, b: set<int>)
    requires a <= b
    ensures |a| <= |b|
  {
    assert b == a + (b - a);
  }

  /** More cursors than there are from -1 up to the end are not all different. */
  lemma SomeTwice(cs: seq<int>, end: nat)
    requires |cs| > end + 1 && forall c <- cs :: -1 <= c < end
    ensures exists i, j :: 0 <= i < j < |cs| && cs[i] == cs[j]
  {
    if forall i, j :: 0 <= i < j < |cs| ==> cs[i] != cs[j] {
      DistinctSize(cs);
      SubsetSize((set x | x in cs), CursorsBelow(end));
    }
  }

  /** How many turns decide. */
  function Enough(end: int): nat {
    if end < 0 then 0 else end + 2
  }

  /**
   * From any cursor in the buffer the loop runs for ever exactly if it has not ended after two turns more than the
   * end of the sequence.
   */
  lemma {:induction false} NeverEndsExactly(buffer: seq<Byte>, start: nat, end: int)
    ensures NeverEnds(buffer, start, end) <==> After(buffer, start, end, Enough(end)).Running?
  {
    var n := Enough(end);
    if end < 0 {
      assert After(buffer, start, end, 0) == Ended;
    } else if After(buffer, start, end, n).Running? {
      forall k: nat | k <= n ensures After(buffer, start, end, k).Running? {
        if !After(buffer, start, end, k).Running? {
          StaysEnded(LoopBody(buffer, end), Settled(At(start), end), k, n);
        }
      }
      ComesBack(buffer, start, end, n);
    }
  }

  lemma {:induction false} ComesBack(buffer: seq<Byte>, start: nat, end: nat, n: nat)
    requires n == Enough(end) && forall k: nat :: k <= n ==> After(buffer, start, end, k).Running?
    ensures NeverEnds(buffer, start, end)
  {
    var cs := Cursors(buffer, start, end, n);
    forall c | c in cs ensures -1 <= c < end {
      var k :| 0 <= k < |cs| && cs[k] == c;
      assert After(buffer, start, end, k).Running? && After(buffer, start, end, k + 1).Running?;
    }
    SomeTwice(cs, end);
    var i, j :| 0 <= i < j < |cs| && cs[i] == cs[j];
    forall k: nat ensures After(buffer, start, end, k).Running? {
      RoundAndRound(LoopBody(buffer, end), Settled(At(start), end), i, j, k);
    }
  }

  // ----- A TLV that ends where it starts -----

  /** The four octets of -6 behind their count. */
  const MINUS_SIX: seq<Byte> := [0x84, 0xFF, 0xFF, 0xFF, 0xFA]

  lemma FourOctets(b: seq<Byte>)
    requires |b| == 4
    ensures BigEndian(b) == b[0] as int * 0x100_0000 + b[1] as int * 0x1_0000 + b[2] as int * 0x100 + b[3]
  {
    var three, two, one := b[..3], b[..2], b[..1];
    assert three[..2] == two && two[..1] == one && one[..0] == [];
    assert BigEndian(one) == b[0] && BigEndian(two) == BigEndian(one) * 0x100 + b[1];
    assert BigEndian(three) == BigEndian(two) * 0x100 + b[2];
  }

  /** A TLV leads the cursor back to itself exactly when its length octets state -6 in four octets. */
  lemma {:induction false} StaysExactly(buffer: seq<Byte>, offset: nat)
    requires TlvAt(buffer, offset).Ok?
    ensures TlvAt(buffer, offset).value.end == offset <==>
      offset + 6 <= |buffer| && buffer[offset + 1..offset + 6] == MINUS_SIX
  {
    NegativeLengthExactly(buffer, offset);
    if buffer[offset + 1] == 0x84 {
      var field := buffer[offset + 1..offset + 6];
      FourOctets(field[1..]);
      assert field[1..][0] == buffer[offset + 2] && field == [field[0]] + field[1..];
    }
  }

  /** A sequence of one such item, which the reader accepts as a TLV, whatever its tags and whatever follows. */
  lemma {:induction false} EndlessSequence(outer: Byte, inner: Byte, rest: seq<Byte>)
    ensures var buffer := [outer, 0x06, inner] + MINUS_SIX + rest;
      && TlvAt(buffer, 0) == Ok(Tlv(outer, 6, 2, 8, buffer))
      && TlvAt(buffer, 2) == Ok(Tlv(inner, -6, 8, 2, buffer))
      && NeverEnds(buffer, 2, 8)
  {
    var buffer := [outer, 0x06, inner] + MINUS_SIX + rest;
    assert buffer[1..2] == [0x06];
    assert buffer[3..8] == MINUS_SIX && MINUS_SIX[1..] == [0xFF, 0xFF, 0xFF, 0xFA];
    FourOctets(MINUS_SIX[1..]);
    forall n: nat ensures After(buffer, 2, 8, n).Running? {
      StandsStill(LoopBody(buffer, 8), Running(2), n);
    }
  }

  lemma {:induction false} StandsStill(f: State -> State, s: State, n: nat)
    requires f(s) == s
    ensures Repeated(f, s, n) == s
  {
    if n > 0 {
      StandsStill(f, s, n - 1);
    }
  }
}
