/** Lists of strings, each ended by a NUL, with another NUL at the end
    (userspace/libusbip/src/strconv.cpp). */
module MultiSz {
  const NUL := '\0'

  /** wcsnlen_s */
  function Len(s: string): (n: nat)
    ensures n <= |s|
    ensures forall k :: 0 <= k < n ==> s[k] != NUL
    ensures n < |s| ==> s[n] == NUL
  {
    if s == "" || s[0] == NUL then 0 else 1 + Len(s[1..])
  }

  /** The string up to its first NUL. */
  function Cut(s: string): string {
    s[..Len(s)]
  }

  function Rest(s: string): string {
    if Len(s) + 1 <= |s| then s[Len(s) + 1..] else ""
  }

  function Split(s: string): seq<string>
    decreases |s|
  {
    if Len(s) == 0 then [] else [Cut(s)] + Split(Rest(s))
  }

  lemma {:induction false} SplitStep(s: string, v: seq<string>)
    requires Len(s) != 0
    ensures var prefix := if Len(s) + 1 < |s| then Len(s) + 1 else |s|;
      v + Split(s) == v + [s[..Len(s)]] + Split(s[prefix..])
  {
    hide Len;
    var prefix := if Len(s) + 1 < |s| then Len(s) + 1 else |s|;
    assert s[prefix..] == Rest(s);
    assert v + ([Cut(s)] + Split(Rest(s))) == v + [Cut(s)] + Split(Rest(s));
  }

  lemma {:induction false} NothingSplit(s: string)
    requires Len(s) == 0
    ensures Split(s) == []
  {
  }

  /** split_multi_sz */
  method SplitMultiSz(str: string) returns (v: seq<string>)
    ensures v == Split(str)
  {
    hide Split, Cut, Rest;
    v := [];
    var s := str;
    ghost var goal := Split(str);
    var len := Len(s);
    assert [] + goal == goal;
    while len != 0
      invariant len == Len(s)
      invariant v + Split(s) == goal
      decreases |s|
    {
      SplitStep(s, v);
      v := v + [s[..len]];
      var prefix := if len + 1 < |s| then len + 1 else |s|;
      s := s[prefix..];
      len := Len(s);
    }
    NothingSplit(s);
  }

  function Make(v: seq<string>): string {
    if v == [] then [NUL]
    else (if Len(v[0]) == 0 then "" else Cut(v[0]) + [NUL]) + Make(v[1..])
  }

  lemma NoStrings()
    ensures Make([]) == [NUL] && Kept([]) == []
  {
  }

  lemma {:induction false} MakeStep(v: seq<string>, i: nat, str: string)
    requires i < |v|
    ensures str + Make(v[i..]) == (if Len(v[i]) == 0 then str else str + Cut(v[i]) + [NUL]) + Make(v[i + 1..])
  {
    assert v[i..][0] == v[i] && v[i..][1..] == v[i + 1..];
    var tail := Make(v[i + 1..]);
    if Len(v[i]) == 0 {
      assert "" + tail == tail;
    } else {
      assert str + (Cut(v[i]) + [NUL] + tail) == str + Cut(v[i]) + [NUL] + tail;
    }
  }

  /** make_multi_sz */
  method MakeMultiSz(v: seq<string>) returns (str: string)
    ensures str == Make(v)
  {
    hide Make;
    str := "";
    ghost var goal := Make(v);
    assert v[0..] == v && "" + goal == goal;
    for i := 0 to |v|
      invariant str + Make(v[i..]) == goal
    {
      var len := Len(v[i]);
      MakeStep(v, i, str);
      if len != 0 {
        str := str + v[i][..len];
        str := str + [NUL];
      }
    }
    assert v[|v|..] == [];
    NoStrings();
    str := str + [NUL];
  }

  /** What a list of strings can keep: each is cut at its first NUL, and empty ones are dropped. */
  function Kept(v: seq<string>): seq<string> {
    if v == [] then [] else (if Cut(v[0]) == "" then [] else [Cut(v[0])]) + Kept(v[1..])
  }

  predicate NulFree(s: string) {
    NUL !in s
  }

  lemma {:induction false} LenIs(s: string, n: nat)
    requires n <= |s| && (forall k :: 0 <= k < n ==> s[k] != NUL) && (n < |s| ==> s[n] == NUL)
    ensures Len(s) == n
  {
    if n > 0 {
      LenIs(s[1..], n - 1);
    }
  }

  lemma {:induction false} LenOfTerminated(s: string, rest: string)
    requires NulFree(s)
    ensures Cut(s + [NUL] + rest) == s && Rest(s + [NUL] + rest) == rest
  {
    var t := s + [NUL] + rest;
    LenIs(t, |s|);
    assert t[|s| + 1..] == rest && t[..|s|] == s;
  }

  lemma {:induction false} CutIsNulFree(s: string)
    ensures NulFree(Cut(s))
  {
  }

  lemma {:induction false} CutOfNulFree(s: string)
    requires NulFree(s)
    ensures Cut(s) == s
  {
    LenIs(s, |s|);
  }

  /** Splitting what was made gives the strings back, cut at the first NUL and without empty ones. */
  lemma {:induction false} SplitInvertsMake(v: seq<string>)
    ensures Split(Make(v)) == Kept(v)
  {
    hide Split, Make, Kept, Cut;
    if v == [] {
      LenIs([NUL], 0);
      NoStrings();
      NothingSplit([NUL]);
    } else {
      SplitInvertsMake(v[1..]);
      MakeFirst(v);
      if Cut(v[0]) != "" {
        CutIsNulFree(v[0]);
        SplitFirst(Cut(v[0]), Make(v[1..]));
      }
    }
  }

  lemma {:induction false} MakeFirst(v: seq<string>)
    requires v != []
    ensures Make(v) == if Cut(v[0]) == "" then Make(v[1..]) else Cut(v[0]) + [NUL] + Make(v[1..])
    ensures Kept(v) == if Cut(v[0]) == "" then Kept(v[1..]) else [Cut(v[0])] + Kept(v[1..])
  {
    hide Len;
    assert "" + Make(v[1..]) == Make(v[1..]);
    assert [] + Kept(v[1..]) == Kept(v[1..]);
  }

  lemma {:induction false} SplitFirst(s: string, rest: string)
    requires NulFree(s) && s != ""
    ensures Split(s + [NUL] + rest) == [s] + Split(rest)
  {
    hide Len;
    LenOfTerminated(s, rest);
  }

  /** What the split takes from any view, terminated or not. */
  lemma {:induction false} SplitCases(s: string, rest: string)
    requires NulFree(s) && s != ""
    ensures Split(s + ['\0'] + rest) == [s] + Split(rest) && Split(s) == [s]
    ensures Split(['\0'] + rest) == [] && Split("") == []
  {
    hide Split, Cut, Rest;
    SplitFirst(s, rest);
    LenIs(s, |s|);
    SplitStep(s, []);
    LenIs(['\0'] + rest, 0);
    NothingSplit(['\0'] + rest);
    NothingSplit("");
    assert s[..|s|] == s && s[|s|..] == "";
    assert [] + Split(s) == Split(s) && [] + [s] + [] == [s];
  }

  /** Strings without a NUL that are not empty are all kept. */
  lemma {:induction false} AllKept(v: seq<string>)
    requires forall i :: 0 <= i < |v| ==> v[i] != "" && NulFree(v[i])
    ensures Kept(v) == v && Split(Make(v)) == v
  {
    if v != [] {
      AllKept(v[1..]);
      CutOfNulFree(v[0]);
    }
    SplitInvertsMake(v);
  }

  /** Whatever is split, no string has a NUL. */
  lemma {:induction false} SplitIsNulFree(s: string, i: nat)
    requires i < |Split(s)|
    ensures NulFree(Split(s)[i]) && Split(s)[i] != ""
    decreases |s|
  {
    assert Split(s) == [Cut(s)] + Split(Rest(s));
    if i == 0 {
      CutIsNulFree(s);
    } else {
      SplitIsNulFree(Rest(s), i - 1);
      assert Split(s)[i] == Split(Rest(s))[i - 1];
    }
  }
}
