/**
  The string operations the library relies on: `str.split(".")`,
  `".".join(...)`, `str(n)` for indices, `int(s)` for list segments and
  `str.lower()` for UUID text.
 */
module Text {
  import opened Wrappers

  const Sep: char := '.'

  /** `s.split(".")`: always at least one piece, pieces never contain the separator. */
  function Split(s: string): (pieces: seq<string>)
    ensures |pieces| >= 1
    ensures forall i :: 0 <= i < |pieces| ==> Sep !in pieces[i]
    ensures Sep !in s ==> pieces == [s]
    decreases |s|
  {
    if s == [] then [""]
    else if s[0] == Sep then [""] + Split(s[1..])
    else
      var rest := Split(s[1..]);
      assert Sep !in s ==> s == [s[0]] + s[1..];
      [[s[0]] + rest[0]] + rest[1..]
  }

  lemma {:induction false} SplitSep(s: string)
    ensures Split([Sep] + s) == [""] + Split(s)
  {
    assert ([Sep] + s)[1..] == s;
  }

  lemma {:induction false} SplitChar(c: char, s: string)
    requires c != Sep
    ensures Split([c] + s) == [[c] + Split(s)[0]] + Split(s)[1..]
  {
    assert ([c] + s)[1..] == s;
  }

  /** `".".join(pieces)`. */
  function Join(pieces: seq<string>): (s: string)
    decreases |pieces|
  {
    if |pieces| == 0 then ""
    else if |pieces| == 1 then pieces[0]
    else pieces[0] + [Sep] + Join(pieces[1..])
  }

  lemma {:induction false} JoinCons(p: string, ps: seq<string>)
    requires |ps| >= 1
    ensures Join([p] + ps) == p + [Sep] + Join(ps)
  {
    assert ([p] + ps)[1..] == ps;
  }

  /** Joining the pieces of a split gives the string back, empty pieces included. */
  lemma {:induction false} JoinSplit(s: string)
    ensures Join(Split(s)) == s
    decreases |s|
  {
    if s == [] {
    } else if s[0] == Sep {
      JoinSplit(s[1..]);
      JoinCons("", Split(s[1..]));
      assert s == [Sep] + s[1..];
    } else {
      var rest := Split(s[1..]);
      JoinSplit(s[1..]);
      if |rest| == 1 {
        assert s == [s[0]] + s[1..];
      } else {
        JoinCons(rest[0], rest[1..]);
        JoinCons([s[0]] + rest[0], rest[1..]);
        assert rest == [rest[0]] + rest[1..];
        assert s == [s[0]] + s[1..];
      }
    }
  }

  /** Splitting a join gives the pieces back when no piece holds the separator. */
  lemma {:induction false} SplitJoin(ps: seq<string>)
    requires |ps| >= 1
    requires forall i :: 0 <= i < |ps| ==> Sep !in ps[i]
    ensures Split(Join(ps)) == ps
    decreases |ps|, |ps[0]|, 1
  {
    if |ps| == 1 {
    } else if ps[0] == [] {
      SplitJoinEmptyHead(ps);
    } else {
      SplitJoinCharHead(ps);
    }
  }

  lemma {:induction false} SplitJoinEmptyHead(ps: seq<string>)
    requires |ps| >= 2 && ps[0] == []
    requires forall i :: 0 <= i < |ps| ==> Sep !in ps[i]
    ensures Split(Join(ps)) == ps
    decreases |ps|, |ps[0]|, 0
  {
    var tail := ps[1..];
    assert forall i :: 0 <= i < |tail| ==> Sep !in tail[i] by {
      forall i | 0 <= i < |tail| ensures Sep !in tail[i] { assert tail[i] == ps[i + 1]; }
    }
    SplitJoin(tail);
    JoinCons(ps[0], tail);
    assert ps == [ps[0]] + tail;
    assert Join(ps) == [Sep] + Join(tail);
    SplitSep(Join(tail));
  }

  lemma {:induction false} SplitJoinCharHead(ps: seq<string>)
    requires |ps| >= 2 && ps[0] != []
    requires forall i :: 0 <= i < |ps| ==> Sep !in ps[i]
    ensures Split(Join(ps)) == ps
    decreases |ps|, |ps[0]|, 0
  {
    var c := ps[0][0];
    var tail := [ps[0][1..]] + ps[1..];
    assert c != Sep by { assert c == ps[0][0]; }
    assert forall i :: 0 <= i < |tail| ==> Sep !in tail[i] by {
      forall i | 0 <= i < |tail| ensures Sep !in tail[i] {
        if i == 0 { assert tail[0] == ps[0][1..]; } else { assert tail[i] == ps[i]; }
      }
    }
    SplitJoin(tail);
    assert ps == [ps[0]] + ps[1..];
    assert tail == [ps[0][1..]] + ps[1..];
    JoinCons(ps[0], ps[1..]);
    JoinCons(ps[0][1..], ps[1..]);
    assert ps[0] == [c] + ps[0][1..];
    assert Join(ps) == [c] + Join(tail);
    SplitChar(c, Join(tail));
    assert tail[1..] == ps[1..];
    assert [c] + tail[0] == ps[0];
  }

  /** Decimal digit of 0 <= d < 10. */
  function Digit(d: nat): (c: char)
    requires d < 10
    ensures '0' <= c <= '9' && (c as int) - ('0' as int) == d
  {
    ('0' as int + d) as char
  }

  /** `str(n)` for a non-negative integer. */
  function NatToString(n: nat): (s: string)
    ensures |s| >= 1
    ensures forall i :: 0 <= i < |s| ==> '0' <= s[i] <= '9'
    decreases n
  {
    if n < 10 then [Digit(n)] else NatToString(n / 10) + [Digit(n % 10)]
  }

  predicate IsDigits(s: string) {
    |s| >= 1 && forall i :: 0 <= i < |s| ==> '0' <= s[i] <= '9'
  }

  /** The value of a run of decimal digits. */
  function DigitsValue(s: string): (n: nat)
    requires IsDigits(s)
    decreases |s|
  {
    if |s| == 1 then (s[0] as int) - ('0' as int)
    else DigitsValue(s[..|s| - 1]) * 10 + ((s[|s| - 1] as int) - ('0' as int))
  }

  /**
    `int(s)` for an optional sign followed by decimal digits; None where Python
    raises ValueError.
   */
  function ParseInt(s: string): (r: Option<int>)
    ensures r.Some? <==> IsDigits(s) || (|s| >= 2 && s[0] in "+-" && IsDigits(s[1..]))
  {
    if IsDigits(s) then Some(DigitsValue(s))
    else if |s| >= 2 && s[0] == '-' && IsDigits(s[1..]) then Some(0 - DigitsValue(s[1..]) as int)
    else if |s| >= 2 && s[0] == '+' && IsDigits(s[1..]) then Some(DigitsValue(s[1..]))
    else None
  }

  lemma {:induction false} DigitsOfNat(n: nat)
    ensures IsDigits(NatToString(n)) && DigitsValue(NatToString(n)) == n
    decreases n
  {
    if n >= 10 {
      DigitsOfNat(n / 10);
      var s := NatToString(n);
      assert s[..|s| - 1] == NatToString(n / 10);
    }
  }

  /** `int(str(n)) == n` and `int("-" + str(n)) == -n`: the index segments this parser is meant for. */
  lemma {:induction false} ParseIntRoundTrip(n: nat)
    ensures ParseInt(NatToString(n)) == Some(n)
    ensures ParseInt("-" + NatToString(n)) == Some(0 - n as int)
  {
    DigitsOfNat(n);
    assert ("-" + NatToString(n))[1..] == NatToString(n);
    assert !IsDigits("-" + NatToString(n)) by { assert ("-" + NatToString(n))[0] == '-'; }
  }

  /** `str.lower()` on ASCII letters. */
  function Lower(s: string): (r: string)
    ensures |r| == |s|
    ensures forall i :: 0 <= i < |s| ==> r[i] == (if 'A' <= s[i] <= 'Z' then (s[i] as int + 32) as char else s[i])
  {
    if s == [] then []
    else [if 'A' <= s[0] <= 'Z' then (s[0] as int + 32) as char else s[0]] + Lower(s[1..])
  }
}
