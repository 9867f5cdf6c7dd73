/** The `positions` parameter of the players query: a comma-separated string turned into the
    list of its pieces, as `str::split(',')` does (every comma separates two pieces, so the
    empty string gives one empty piece and a trailing comma gives an empty last piece). */
module PlayersQuery {
  import opened PoolTypes

  /** The number of commas in `s`. */
  function Commas(s: string): nat
  {
    if s == "" then 0 else (if s[0] == ',' then 1 else 0) + Commas(s[1..])
  }

  /** The pieces of `s` between its commas, from left to right. */
  function Split(s: string): (r: seq<string>)
    ensures |r| >= 1
    ensures forall i :: 0 <= i < |r| ==> ',' !in r[i]
  {
    if s == "" then [""]
    else if s[0] == ',' then [""] + Split(s[1..])
    else
      var rest := Split(s[1..]);
      [[s[0]] + rest[0]] + rest[1..]
  }

  /** The pieces put back together, one comma between two neighbours. */
  function Join(pieces: seq<string>): (r: string)
    requires |pieces| >= 1
  {
    if |pieces| == 1 then pieces[0] else pieces[0] + "," + Join(pieces[1..])
  }

  /** Every comma makes one more piece. */
  lemma {:induction false} SplitCount(s: string)
    ensures |Split(s)| == Commas(s) + 1
  {
    if s != "" {
      SplitCount(s[1..]);
    }
  }

  /** Joining the pieces gives back the string. */
  lemma {:induction false} JoinSplit(s: string)
    ensures Join(Split(s)) == s
  {
    if s != "" {
      JoinSplit(s[1..]);
      var rest := Split(s[1..]);
      if s[0] == ',' {
        assert Split(s)[1..] == rest;
      } else if |rest| == 1 {
        assert s == [s[0]] + s[1..];
      } else {
        var r := Split(s);
        assert r[1..] == rest[1..];
        assert Join(r) == [s[0]] + rest[0] + "," + Join(rest[1..]);
        assert s == [s[0]] + s[1..];
      }
    }
  }

  /** Splitting what was joined gives back the pieces, when none of them holds a comma. */
  lemma {:induction false} SplitJoin(pieces: seq<string>)
    requires |pieces| >= 1
    requires forall i :: 0 <= i < |pieces| ==> ',' !in pieces[i]
    ensures Split(Join(pieces)) == pieces
  {
    if |pieces| == 1 {
      SplitPiece(pieces[0], "");
      assert pieces[0] + "" == pieces[0];
    } else {
      SplitJoin(pieces[1..]);
      var tail := "," + Join(pieces[1..]);
      SplitPiece(pieces[0], tail);
      assert Join(pieces) == pieces[0] + tail;
      assert tail[0] == ',' && tail[1..] == Join(pieces[1..]);
      assert Split(tail) == [""] + pieces[1..];
      assert pieces[0] + "" == pieces[0];
      assert pieces == [pieces[0]] + pieces[1..];
    }
  }

  /** A piece without commas in front of a string extends that string's first piece. */
  lemma {:induction false} SplitPiece(piece: string, s: string)
    requires ',' !in piece
    ensures var r := Split(s); Split(piece + s) == [piece + r[0]] + r[1..]
  {
    var r := Split(s);
    if piece == "" {
      assert piece + s == s;
      assert piece + r[0] == r[0];
      assert [r[0]] + r[1..] == r;
    } else {
      SplitPiece(piece[1..], s);
      var whole := piece + s;
      assert whole[1..] == piece[1..] + s;
      assert whole[0] == piece[0] && piece[0] != ',' by { assert piece[0] in piece; }
      var rest := Split(whole[1..]);
      assert rest == [piece[1..] + r[0]] + r[1..];
      assert rest[1..] == r[1..];
      assert [piece[0]] + rest[0] == piece + r[0];
    }
  }

  /** `comma_separated`: the query's string always deserializes to `Some` of its pieces. */
  function CommaSeparated(s: string): (r: Option<seq<string>>)
    ensures r.Some? && |r.value| >= 1
    ensures forall i :: 0 <= i < |r.value| ==> ',' !in r.value[i]
    ensures Join(r.value) == s
  {
    JoinSplit(s);
    Some(Split(s))
  }
}
