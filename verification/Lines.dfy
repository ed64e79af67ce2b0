/** Text as lines (ports/neatvi/lbuf.c:124-187): splitting inserted text, copying lines out, and
    when copying out and splitting again is no change. */
module Lines {

  /** linelength: up to and with the first newline. */
  function LineLength(s: string): (n: nat)
    ensures n <= |s| && (s != [] ==> n > 0)
    ensures forall i :: 0 <= i < n - 1 ==> s[i] != '\n'
    ensures n < |s| ==> s[n - 1] == '\n'
  {
    if s == [] then 0 else if s[0] == '\n' then 1 else 1 + LineLength(s[1..])
  }

  function Split(s: string): (ls: seq<string>)
  {
    if s == [] then [] else [s[..LineLength(s)]] + Split(s[LineLength(s)..])
  }

  function Concat(ls: seq<string>): string
  {
    if ls == [] then [] else ls[0] + Concat(ls[1..])
  }

  /** What Split makes: a line with no newline but at its end. */
  predicate IsLine(l: string)
  {
    l != [] && forall i :: 0 <= i < |l| - 1 ==> l[i] != '\n'
  }

  predicate IsWhole(l: string)
  {
    IsLine(l) && l[|l| - 1] == '\n'
  }

  predicate AllLines(ls: seq<string>)
  {
    forall i :: 0 <= i < |ls| ==> IsLine(ls[i])
  }

  predicate AllWhole(ls: seq<string>)
  {
    forall i :: 0 <= i < |ls| ==> IsWhole(ls[i])
  }

  /** Every line but the last ends with a newline. */
  predicate Ending(ls: seq<string>)
  {
    AllWhole(ls[.. if ls == [] then 0 else |ls| - 1])
  }

  /** Text whose every line ends. */
  predicate IsSound(s: string)
  {
    s != [] ==> s[|s| - 1] == '\n'
  }

  /** Splitting loses nothing. */
  lemma {:induction false} ConcatOfSplit(s: string)
    ensures Concat(Split(s)) == s && AllLines(Split(s))
  {
    if s != [] {
      var n := LineLength(s);
      var rest := Split(s[n..]);
      ConcatOfSplit(s[n..]);
      assert Split(s) == [s[..n]] + rest;
      hide Split, LineLength;
      ConcatFirst(s[..n], rest);
      assert s == s[..n] + s[n..];
    }
  }

  lemma ConcatFirst(l: string, ls: seq<string>)
    ensures Concat([l] + ls) == l + Concat(ls)
  {
    assert ([l] + ls)[1..] == ls;
  }

  lemma {:induction false} SplitSound(s: string)
    requires IsSound(s)
    ensures AllWhole(Split(s))
  {
    if s != [] {
      var n := LineLength(s);
      if n < |s| { SplitSound(s[n..]); }
    }
  }

  lemma LineLengthOf(l: string, rest: string)
    requires IsLine(l) && (l[|l| - 1] == '\n' || rest == [])
    ensures LineLength(l + rest) == |l|
  {
    var s := l + rest;
    var n := LineLength(s);
    assert forall i :: 0 <= i < |l| ==> s[i] == l[i];
  }

  /** Lines that were copied out as one text are split into the same lines again if and only if
      all but the last of them end with a newline. */
  lemma {:induction false} SplitOfConcat(ls: seq<string>)
    requires AllLines(ls)
    ensures Split(Concat(ls)) == ls <==> Ending(ls)
  {
    if |ls| == 1 {
      LineLengthOf(ls[0], []);
      assert ls[0] + [] == ls[0] && Concat(ls) == ls[0];
    } else if |ls| > 1 {
      var rest := Concat(ls[1..]);
      var n := LineLength(ls[0] + rest);
      SplitOfConcat(ls[1..]);
      assert ls[1..][.. |ls| - 2] == ls[1 .. |ls| - 1];
      if IsWhole(ls[0]) {
        LineLengthOf(ls[0], rest);
        assert (ls[0] + rest)[|ls[0]|..] == rest;
        WholeTail(ls);
      } else {
        ConcatNonempty(ls[1..]);
        LongerLine(ls[0], rest);
        assert Split(ls[0] + rest)[0] != ls[0];
        assert ls[.. |ls| - 1][0] == ls[0];
      }
    }
  }

  lemma WholeTail(ls: seq<string>)
    requires |ls| > 1 && IsWhole(ls[0])
    ensures AllWhole(ls[.. |ls| - 1]) <==> AllWhole(ls[1 .. |ls| - 1])
  {
    var a, b := ls[.. |ls| - 1], ls[1 .. |ls| - 1];
    if AllWhole(b) {
      forall i | 0 <= i < |a| ensures IsWhole(a[i]) { if i > 0 { assert a[i] == b[i - 1]; } }
    }
    if AllWhole(a) {
      forall i | 0 <= i < |b| ensures IsWhole(b[i]) { assert b[i] == a[i + 1]; }
    }
  }

  lemma ConcatNonempty(ls: seq<string>)
    requires ls != [] && IsLine(ls[0])
    ensures Concat(ls) != []
  {}

  lemma LongerLine(l: string, rest: string)
    requires IsLine(l) && !IsWhole(l) && rest != []
    ensures LineLength(l + rest) > |l|
  {
    var s := l + rest;
    var n := LineLength(s);
    assert forall i :: 0 <= i < |l| ==> s[i] == l[i];
  }

  /** Text with its n lines from pos on replaced. */
  function Splice(t: seq<string>, pos: nat, n: nat, ins: seq<string>): seq<string>
  {
    if pos + n <= |t| then t[..pos] + ins + t[pos + n ..] else t
  }

  /** Putting the old lines back. */
  lemma SpliceBack(t: seq<string>, pos: nat, n: nat, ins: seq<string>)
    requires pos + n <= |t|
    ensures Splice(Splice(t, pos, n, ins), pos, |ins|, t[pos .. pos + n]) == t
  {}

  /** A line replaced twice is replaced once. */
  lemma SpliceTwice(t: seq<string>, pos: nat, n: nat, a: seq<string>, b: seq<string>)
    requires pos + n <= |t|
    ensures Splice(Splice(t, pos, n, a), pos, |a|, b) == Splice(t, pos, n, b)
  {}

  /** Only the old lines do. */
  lemma SpliceBackIff(t: seq<string>, pos: nat, n: nat, ins: seq<string>, back: seq<string>)
    requires pos + n <= |t|
    ensures Splice(Splice(t, pos, n, ins), pos, |ins|, back) == t <==> back == t[pos .. pos + n]
  {
    var r := Splice(Splice(t, pos, n, ins), pos, |ins|, back);
    assert r == t[.. pos] + back + t[pos + n ..];
    if r == t {
      assert |back| == n;
      assert r[pos .. pos + n] == back;
    }
  }

  lemma SpliceWhole(t: seq<string>, pos: nat, n: nat, ins: seq<string>)
    requires AllWhole(t) && AllWhole(ins)
    ensures AllWhole(Splice(t, pos, n, ins))
  {}

  lemma SpliceLines(t: seq<string>, pos: nat, n: nat, ins: seq<string>)
    requires AllLines(t) && AllLines(ins)
    ensures AllLines(Splice(t, pos, n, ins))
  {}
}
