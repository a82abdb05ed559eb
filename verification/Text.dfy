/** The string operations the gateway leans on: `strings.Split`, `strconv.Atoi` and decimal printing. */
module Text {

  datatype Option<+T> = None | Some(value: T)

  function Members(texts: seq<string>): set<string> { set t | t in texts }

  predicate NoRepeats(texts: seq<string>) { forall i, j :: 0 <= i < j < |texts| ==> texts[i] != texts[j] }

  /** A Go map's keys, each once, in whatever order ranging over the map delivers them. */
  ghost predicate Enumerates(texts: seq<string>, keys: set<string>) { Members(texts) == keys && NoRepeats(texts) }

  /** Dropping the first occurrence, which is what both balancers do to their host lists. */
  function RemoveFirst(list: seq<string>, x: string): (r: seq<string>)
    ensures forall y :: y in r ==> y in list
    ensures x !in list ==> r == list
  {
    if list == [] then []
    else if list[0] == x then list[1..] else [list[0]] + RemoveFirst(list[1..], x)
  }

  lemma {:induction false} RemoveFirstAt(list: seq<string>, i: nat)
    requires i < |list| && forall j :: 0 <= j < i ==> list[j] != list[i]
    ensures RemoveFirst(list, list[i]) == list[..i] + list[i + 1..]
  {
    if i > 0 {
      var rest := list[1..];
      assert forall j :: 0 <= j < i - 1 ==> rest[j] == list[j + 1];
      RemoveFirstAt(rest, i - 1);
      assert list[..i] == [list[0]] + rest[..i - 1] && list[i + 1..] == rest[i..];
    }
  }

  /** A host in the front part is dropped there. */
  lemma {:induction false} RemoveFirstOfBoth(s: seq<string>, t: seq<string>, x: string)
    requires x in s
    ensures RemoveFirst(s + t, x) == RemoveFirst(s, x) + t && |RemoveFirst(s, x)| == |s| - 1
  {
    assert s == [s[0]] + s[1..];
    assert (s + t)[1..] == s[1..] + t;
    if s[0] != x {
      RemoveFirstOfBoth(s[1..], t, x);
      assert [s[0]] + (RemoveFirst(s[1..], x) + t) == ([s[0]] + RemoveFirst(s[1..], x)) + t;
    }
  }

  lemma LastOut(list: seq<string>, x: string)
    requires x !in list
    ensures RemoveFirst(list + [x], x) == list
  {
    RemoveFirstAt(list + [x], |list|);
    assert (list + [x])[..|list|] + (list + [x])[|list| + 1..] == list;
  }

  lemma {:induction false} RemoveFirstMembers(list: seq<string>, x: string)
    requires NoRepeats(list)
    ensures NoRepeats(RemoveFirst(list, x))
    ensures forall y :: y in RemoveFirst(list, x) <==> y in list && y != x
  {
    if list != [] {
      assert list == [list[0]] + list[1..];
      assert list[0] !in list[1..];
      if list[0] != x {
        var rest := RemoveFirst(list[1..], x);
        RemoveFirstMembers(list[1..], x);
        assert list[0] !in rest;
        assert RemoveFirst(list, x) == [list[0]] + rest;
      }
    }
  }

  /** `strings.Split(s, sep)` for a one-character separator: always at least one piece. */
  function Split(s: string, sep: char): (pieces: seq<string>)
    ensures |pieces| >= 1 && |pieces[0]| <= |s|
  {
    if s == "" then [""]
    else
      var rest := Split(s[1..], sep);
      if s[0] == sep then [""] + rest
      else [[s[0]] + rest[0]] + rest[1..]
  }

  function Join(pieces: seq<string>, sep: char): string
    requires |pieces| >= 1
  {
    if |pieces| == 1 then pieces[0]
    else pieces[0] + [sep] + Join(pieces[1..], sep)
  }

  /** Splitting loses nothing and leaves no separator inside a piece. */
  lemma {:induction false} SplitThenJoin(s: string, sep: char)
    ensures Join(Split(s, sep), sep) == s
    ensures forall piece :: piece in Split(s, sep) ==> sep !in piece
  {
    if s != "" {
      SplitThenJoin(s[1..], sep);
      var rest := Split(s[1..], sep);
      assert [s[0]] + s[1..] == s;
      if s[0] == sep {
        JoinPrepend("", [sep], rest, sep);
      } else {
        JoinExtendFirst(s[0], rest, sep);
      }
    }
  }

  lemma JoinPrepend(first: string, mid: string, rest: seq<string>, sep: char)
    requires |rest| >= 1 && mid == [sep]
    ensures Join([first] + rest, sep) == first + mid + Join(rest, sep)
  {
    assert ([first] + rest)[1..] == rest;
  }

  lemma JoinExtendFirst(c: char, rest: seq<string>, sep: char)
    requires |rest| >= 1
    ensures Join([[c] + rest[0]] + rest[1..], sep) == [c] + Join(rest, sep)
  {
    var whole := [[c] + rest[0]] + rest[1..];
    assert whole[1..] == rest[1..];
    if |rest| > 1 {
      assert [c] + rest[0] + [sep] + Join(rest[1..], sep) == [c] + (rest[0] + [sep] + Join(rest[1..], sep));
    }
  }

  /** The first separator ends the first piece. */
  lemma {:induction false} SplitAtFirst(a: string, sep: char, b: string)
    requires sep !in a
    ensures Split(a + [sep] + b, sep) == [a] + Split(b, sep)
  {
    var s := a + [sep] + b;
    if a == "" {
      assert s[1..] == b;
    } else {
      assert s[1..] == a[1..] + [sep] + b;
      SplitAtFirst(a[1..], sep, b);
      assert [a[0]] + a[1..] == a;
    }
  }

  lemma {:induction false} SplitWhole(a: string, sep: char)
    requires sep !in a
    ensures Split(a, sep) == [a]
  {
    if a == "" {
    } else {
      SplitWhole(a[1..], sep);
      assert [a[0]] + a[1..] == a;
    }
  }

  predicate IsDigit(c: char) { '0' <= c <= '9' }

  predicate AllDigits(s: string) { forall i :: 0 <= i < |s| ==> IsDigit(s[i]) }

  /** Value of a digit string, most significant digit first. */
  function DigitsValue(s: string): (v: nat)
    requires AllDigits(s)
  {
    if s == "" then 0
    else 10 * DigitsValue(s[..|s| - 1]) + (s[|s| - 1] as int - '0' as int)
  }

  const MAX_INT := 0x7fff_ffff_ffff_ffff

  /** `strconv.Atoi` on a 64-bit machine: optional sign, at least one digit, nothing else, in range. */
  function Atoi(s: string): Option<int> {
    var signed := s != "" && (s[0] == '-' || s[0] == '+');
    var digits := if signed then s[1..] else s;
    if digits == "" || !AllDigits(digits) then None
    else
      var n: int := DigitsValue(digits);
      var v := if signed && s[0] == '-' then -n else n;
      if -MAX_INT - 1 <= v <= MAX_INT then Some(v) else None
  }

  /** Decimal text of a natural number. */
  function Itoa(n: nat): (s: string)
    ensures |s| >= 1 && AllDigits(s) && DigitsValue(s) == n
  {
    var digit := ('0' as int + n % 10) as char;
    if n < 10 then [digit]
    else
      var s := Itoa(n / 10) + [digit];
      assert s[..|s| - 1] == Itoa(n / 10);
      s
  }

  /** Reading back a printed number gives the number. */
  lemma AtoiOfItoa(n: nat)
    requires n <= MAX_INT
    ensures Atoi(Itoa(n)) == Some(n)
    ensures '.' !in Itoa(n) && '/' !in Itoa(n) && ':' !in Itoa(n)
  {
    var s := Itoa(n);
    assert IsDigit(s[0]);
  }

  /** One sign in front of a number is read, and nothing else but digits. */
  lemma AtoiReads(n: int, s: string)
    requires 0 <= n <= MAX_INT
    ensures Atoi("-" + Itoa(n)) == Some(-n)
    ensures Atoi("+" + Itoa(n)) == Some(n) && Atoi("") == None
    ensures Atoi(Itoa(n + MAX_INT + 1)) == None
    ensures (exists i :: 1 <= i < |s| && !IsDigit(s[i])) ==> Atoi(s) == None
    ensures s != "" && !IsDigit(s[0]) && s[0] != '-' && s[0] != '+' ==> Atoi(s) == None
  {
    assert ("-" + Itoa(n))[1..] == Itoa(n) && ("+" + Itoa(n))[1..] == Itoa(n);
    if i :| 1 <= i < |s| && !IsDigit(s[i]) {
      assert s[1..][i - 1] == s[i];
    }
  }
}
