/** `MsgIDUtil::GenMsgID`: twenty random digits, then a decimal counter carried over characters. */
module MsgId {
  import opened Bytes
  import opened Decimal

  const MSG_ID_LENGTH := 20

  /** A call comes back with an id, which is empty when /dev/urandom fell short, or walks off the front of the string.
      */
  datatype Result = Id(id: string) | Fault

  /** The two thread-local strings. */
  datatype Generator = Generator(no: string, maxNo: string)

  const FRESH := Generator("", "")

  function Seed(random: seq<byte>): (s: string)
    ensures |s| == |random| && IsNumeral(s)
  {
    seq(|random|, k requires 0 <= k < |random| => Numeral(random[k] % 10))
  }

  function Successor(s: string): (t: string)
    requires IsNumeral(s)
    ensures |t| == |s| && IsNumeral(t)
  {
    if s == "" then ""
    else
      var last, front := s[|s| - 1], s[..|s| - 1];
      if last == '9' then Successor(front) + "0" else front + [Numeral(Digit(last) + 1)]
  }

  /** A seed's digits are the random bytes modulo ten, as characters. */
  lemma SeedDigits(random: seq<byte>, k: nat)
    requires k < |random|
    ensures Seed(random)[k] == "0123456789"[random[k] % 10]
  {
    DigitCharacters(random[k] % 10);
  }

  /** The carry is addition of one, up to the largest numeral of the width. */
  lemma {:induction false} SuccessorAddsOne(s: string)
    requires IsNumeral(s) && s != Nines(|s|)
    ensures Value(Successor(s)) == Value(s) + 1
  {
    var n := |s| - 1;
    assert s == s[..n] + [s[n]];
    if s[n] == '9' {
      SuccessorAddsOne(s[..n]);
      ValueLast(Successor(s[..n]), '0');
    } else {
      ValueLast(s[..n], Numeral(Digit(s[n]) + 1));
    }
  }

  predicate Valid(g: Generator) {
    IsNumeral(g.no) && g.maxNo == Nines(|g.maxNo|) && |g.no| <= |g.maxNo|
  }

  function Call(g: Generator, random: seq<byte>): (r: (Generator, Result))
    requires Valid(g)
  {
    if g.no == "" || g.no == g.maxNo then
      if |random| != MSG_ID_LENGTH then (g, Id(""))
      else (Generator(Seed(random), g.maxNo + Nines(|random|)), Id(Seed(random)))
    else if g.no == Nines(|g.no|) then (g, Fault)
    else (g.(no := Successor(g.no)), Id(Successor(g.no)))
  }

  lemma {:induction false} NinesAppend(m: nat, n: nat)
    ensures Nines(m) + Nines(n) == Nines(m + n)
  {
    if n > 0 {
      NinesAppend(m, n - 1);
      assert Nines(m) + Nines(n) == (Nines(m) + Nines(n - 1)) + "9";
    } else {
      assert Nines(m) + "" == Nines(m);
    }
  }

  lemma CallKeepsValid(g: Generator, random: seq<byte>)
    requires Valid(g)
    ensures Valid(Call(g, random).0)
  {
    NinesAppend(|g.maxNo|, |random|);
  }

  /** The results of one call for each element of `randoms`, which is what that call would read if it reseeded. */
  function Calls(g: Generator, randoms: seq<seq<byte>>): (rs: seq<Result>)
    requires Valid(g)
    ensures |rs| == |randoms|
    decreases |randoms|
  {
    if randoms == [] then []
    else
      var (g', r) := Call(g, randoms[0]);
      CallKeepsValid(g, randoms[0]);
      [r] + Calls(g', randoms[1..])
  }

  /** When the generator needs a seed and the read falls short, the id is empty and nothing changes. */
  lemma ShortRead(g: Generator, random: seq<byte>)
    requires Valid(g) && (g.no == "" || g.no == g.maxNo) && |random| != 20
    ensures Call(g, random) == (g, Id(""))
  {
  }

  /** A call walks off the string exactly at the top of an epoch that is not the first. */
  lemma FaultsExactly(g: Generator, random: seq<byte>)
    requires Valid(g) && g.no != ""
    ensures Call(g, random).1 == Fault <==> Value(g.no) == Pow10(|g.no|) - 1 && |g.no| < |g.maxNo|
  {
    NinesAreMost(g.no);
  }

  /** While the counter is below its top, calls count: the k-th gives value + k + 1, in any epoch. */
  lemma {:induction false} Counts(g: Generator, randoms: seq<seq<byte>>, k: nat)
    requires Valid(g) && g.no != "" && k < |randoms|
    requires Value(g.no) + k + 1 < Pow10(|g.no|)
    ensures Calls(g, randoms)[k] == Id(Pad(Value(g.no) + k + 1, |g.no|))
    decreases k
  {
    hide Nines, Pow10, Pad, Successor;
    NinesAreMost(g.no);
    SuccessorAddsOne(g.no);
    assert g.no != g.maxNo;
    var (g', r) := Call(g, randoms[0]);
    CallKeepsValid(g, randoms[0]);
    if k == 0 {
      PadValue(Successor(g.no));
    } else {
      Counts(g', randoms[1..], k - 1);
    }
  }

  /** The first epoch: the ids are the numerals of the seed's value and the numbers after it. */
  lemma FirstEpoch(randoms: seq<seq<byte>>, k: nat)
    requires k < |randoms| && |randoms[0]| == MSG_ID_LENGTH
    requires Value(Seed(randoms[0])) + k < Pow10(|randoms[0]|)
    ensures Calls(FRESH, randoms)[k] == Id(Pad(Value(Seed(randoms[0])) + k, |randoms[0]|))
  {
    hide Pow10, Pad, Nines, Seed, Value;
    var seed := Seed(randoms[0]);
    var (g, r) := Call(FRESH, randoms[0]);
    CallKeepsValid(FRESH, randoms[0]);
    assert Calls(FRESH, randoms) == [r] + Calls(g, randoms[1..]);
    if k == 0 {
      PadValue(seed);
    } else {
      Counts(g, randoms[1..], k - 1);
    }
  }

  /** Hence no id comes twice in it. */
  lemma FirstEpochDistinct(randoms: seq<seq<byte>>, j: nat, k: nat)
    requires j < k < |randoms| && |randoms[0]| == MSG_ID_LENGTH
    requires Value(Seed(randoms[0])) + k < Pow10(|randoms[0]|)
    ensures Calls(FRESH, randoms)[j] != Calls(FRESH, randoms)[k]
  {
    hide Pow10, Pad, Value, Calls;
    FirstEpoch(randoms, j);
    FirstEpoch(randoms, k);
    var v := Value(Seed(randoms[0]));
    ValuePad(v + j, |randoms[0]|);
    ValuePad(v + k, |randoms[0]|);
  }

  /** A later epoch never reseeds: it counts to its top and the call after that faults. */
  lemma {:induction false} LaterEpochFaults(g: Generator, randoms: seq<seq<byte>>, k: nat)
    requires Valid(g) && g.no != "" && |g.no| < |g.maxNo| && k < |randoms|
    requires Value(g.no) + k + 1 == Pow10(|g.no|)
    ensures Calls(g, randoms)[k] == Fault
    decreases k
  {
    hide Nines, Pow10, Successor;
    NinesAreMost(g.no);
    var (g', r) := Call(g, randoms[0]);
    CallKeepsValid(g, randoms[0]);
    if k > 0 {
      SuccessorAddsOne(g.no);
      LaterEpochFaults(g', randoms[1..], k - 1);
    }
  }

  /** The generator after `k` calls. */
  function After(g: Generator, randoms: seq<seq<byte>>, k: nat): (g': Generator)
    requires Valid(g) && k <= |randoms|
    ensures Valid(g')
    decreases k
  {
    if k == 0 then g
    else
      CallKeepsValid(g, randoms[0]);
      After(Call(g, randoms[0]).0, randoms[1..], k - 1)
  }

  lemma {:induction false} CallsAfter(g: Generator, randoms: seq<seq<byte>>, k: nat)
    requires Valid(g) && k <= |randoms|
    ensures Calls(g, randoms)[k..] == Calls(After(g, randoms, k), randoms[k..])
    decreases k
  {
    hide Nines, Pow10, Call;
    if k > 0 {
      var (g', r) := Call(g, randoms[0]);
      CallKeepsValid(g, randoms[0]);
      CallsAfter(g', randoms[1..], k - 1);
      assert Calls(g, randoms)[k..] == Calls(g', randoms[1..])[k - 1..];
      assert randoms[1..][k - 1..] == randoms[k..];
    }
  }

  lemma {:induction false} CountsUp(g: Generator, randoms: seq<seq<byte>>, k: nat)
    requires Valid(g) && g.no != "" && k <= |randoms| && Value(g.no) + k < Pow10(|g.no|)
    ensures var g' := After(g, randoms, k);
      g'.maxNo == g.maxNo && |g'.no| == |g.no| && Value(g'.no) == Value(g.no) + k
    decreases k
  {
    hide Nines, Pow10, Successor;
    if k > 0 {
      NinesAreMost(g.no);
      SuccessorAddsOne(g.no);
      CallKeepsValid(g, randoms[0]);
      CountsUp(Call(g, randoms[0]).0, randoms[1..], k - 1);
    }
  }

  /** The call that starts the second epoch, with the first seed's value: the first call is number 0. */
  function SecondSeedAt(randoms: seq<seq<byte>>): (r: nat)
    requires randoms != [] && |randoms[0]| == MSG_ID_LENGTH
    ensures r > 0
  {
    ValueBound(Seed(randoms[0]));
    Pow10(|randoms[0]|) - Value(Seed(randoms[0]))
  }

  /** And the call that faults. */
  function FaultAt(randoms: seq<seq<byte>>): (n: nat)
    requires randoms != [] && |randoms[0]| == MSG_ID_LENGTH
    requires SecondSeedAt(randoms) < |randoms| && |randoms[SecondSeedAt(randoms)]| == MSG_ID_LENGTH
    ensures n > SecondSeedAt(randoms)
  {
    var second := randoms[SecondSeedAt(randoms)];
    ValueBound(Seed(second));
    SecondSeedAt(randoms) + Pow10(|second|) - Value(Seed(second))
  }

  /** At the top of the first epoch the generator draws a new seed under a longer top. */
  lemma SecondEpoch(randoms: seq<seq<byte>>)
    requires randoms != [] && |randoms[0]| == MSG_ID_LENGTH
    requires SecondSeedAt(randoms) < |randoms| && |randoms[SecondSeedAt(randoms)]| == MSG_ID_LENGTH
    ensures var r := SecondSeedAt(randoms);
      && r > 0
      && Call(After(FRESH, randoms, r), randoms[r]).1 == Id(Seed(randoms[r]))
      && Call(After(FRESH, randoms, r), randoms[r]).0.no == Seed(randoms[r])
      && |Call(After(FRESH, randoms, r), randoms[r]).0.maxNo| == 2 * MSG_ID_LENGTH
  {
    hide Pow10, Nines, Seed, Value;
    ValueBound(Seed(randoms[0]));
    var r := SecondSeedAt(randoms);
    var (g, _) := Call(FRESH, randoms[0]);
    CallKeepsValid(FRESH, randoms[0]);
    assert g.no == Seed(randoms[0]) && g.maxNo == "" + Nines(|randoms[0]|) == Nines(|randoms[0]|);
    CountsUp(g, randoms[1..], r - 1);
    var top := After(g, randoms[1..], r - 1);
    assert top == After(FRESH, randoms, r);
    NinesAreMost(top.no);
  }

  /** From a fresh generator, as long as /dev/urandom delivers: every call before `FaultAt` returns an id, and that call
      walks off the string. */
  lemma FirstFault(randoms: seq<seq<byte>>, k: nat)
    requires randoms != [] && forall x :: x in randoms ==> |x| == MSG_ID_LENGTH
    requires SecondSeedAt(randoms) < |randoms| && k < |randoms| && k <= FaultAt(randoms)
    ensures if k == FaultAt(randoms) then Calls(FRESH, randoms)[k] == Fault else Calls(FRESH, randoms)[k].Id?
  {
    hide SecondSeedAt, FaultAt, Calls;
    if k < SecondSeedAt(randoms) {
      FromFirstSeed(randoms, k);
    } else {
      FromSecondSeed(randoms, k);
    }
  }

  lemma FromFirstSeed(randoms: seq<seq<byte>>, k: nat)
    requires randoms != [] && |randoms[0]| == MSG_ID_LENGTH && k < |randoms| && k < SecondSeedAt(randoms)
    ensures Calls(FRESH, randoms)[k].Id?
  {
    hide Pow10, Seed, Value, Calls, Pad;
    FirstEpoch(randoms, k);
  }

  lemma FromSecondSeed(randoms: seq<seq<byte>>, k: nat)
    requires randoms != [] && |randoms[0]| == MSG_ID_LENGTH
    requires SecondSeedAt(randoms) < |randoms| && |randoms[SecondSeedAt(randoms)]| == MSG_ID_LENGTH
    requires SecondSeedAt(randoms) <= k < |randoms| && k <= FaultAt(randoms)
    ensures if k == FaultAt(randoms) then Calls(FRESH, randoms)[k] == Fault else Calls(FRESH, randoms)[k].Id?
  {
    hide Pow10, Nines, Seed, Value, Calls, After, Pad, Call, Successor;
    var r := SecondSeedAt(randoms);
    SecondEpoch(randoms);
    CallsAfter(FRESH, randoms, r);
    var g := After(FRESH, randoms, r);
    var later := randoms[r..];
    assert Calls(FRESH, randoms)[k] == Calls(FRESH, randoms)[r..][k - r] == Calls(g, later)[k - r];
    InSecondEpoch(g, later, k - r);
  }

  lemma InSecondEpoch(g: Generator, randoms: seq<seq<byte>>, k: nat)
    requires Valid(g) && k < |randoms| && |randoms[0]| == MSG_ID_LENGTH
    requires Call(g, randoms[0]).1 == Id(Seed(randoms[0])) && Call(g, randoms[0]).0.no == Seed(randoms[0])
    requires |Call(g, randoms[0]).0.maxNo| == 2 * MSG_ID_LENGTH
    requires k + Value(Seed(randoms[0])) <= Pow10(|randoms[0]|)
    ensures if k + Value(Seed(randoms[0])) == Pow10(|randoms[0]|) then Calls(g, randoms)[k] == Fault
            else Calls(g, randoms)[k].Id?
  {
    hide Pow10, Nines, Seed, Value, Pad, Successor;
    ValueBound(Seed(randoms[0]));
    var (g', r) := Call(g, randoms[0]);
    CallKeepsValid(g, randoms[0]);
    assert Calls(g, randoms) == [r] + Calls(g', randoms[1..]);
    if k > 0 {
      if k + Value(Seed(randoms[0])) == Pow10(|randoms[0]|) {
        LaterEpochFaults(g', randoms[1..], k - 1);
      } else {
        Counts(g', randoms[1..], k - 1);
      }
    }
  }

  class MsgIDUtil {
    var no: string
    var maxNo: string

    constructor ()
      ensures State() == FRESH
    {
      no, maxNo := "", "";
    }

    function State(): Generator
      reads this
    {
      Generator(no, maxNo)
    }

    /** The branch that draws a new number and lengthens the top by as many nines. */
    method Reseed(random: seq<byte>)
      requires |random| == MSG_ID_LENGTH
      modifies this
      ensures no == Seed(random) && maxNo == old(maxNo) + Nines(|random|)
    {
      ghost var top := maxNo;
      var res := "";
      assert top + Nines(0) == top;
      for i := 0 to |random|
        invariant |res| == i && res == Seed(random)[..i]
        invariant maxNo == top + Nines(i)
      {
        res := res + [Numeral(random[i] % 10)];
        maxNo := maxNo + "9";
        assert (top + Nines(i)) + "9" == top + Nines(i + 1);
      }
      no := res;
    }

    /** The branch that carries: back over the nines, one up, zeros behind. It fails when there are only nines. */
    method Increment() returns (ok: bool)
      requires IsNumeral(no) && no != ""
      modifies this`no
      ensures ok <==> old(no) != Nines(|old(no)|)
      ensures no == if ok then Successor(old(no)) else old(no)
    {
      hide Successor, Nines, Zeros;
      ghost var was := no;
      var i := |no| - 1;
      NoCarryYet(was);
      while i >= 0 && no[i] == '9'
        invariant -1 <= i < |no| && no == was
        invariant was[i + 1..] == Nines(|was| - i - 1)
        invariant Successor(was) == Successor(was[..i + 1]) + Zeros(|was| - i - 1)
      {
        CarryOne(was, i);
        i := i - 1;
      }
      if i < 0 {
        assert was[0..] == was;
        return false;
      }
      NotNines(was, i);
      SuccessorNoCarry(was, i);
      no := no[i := (no[i] as int + 1) as char];
      NextCharacter(was[i]);
      ZeroFrom(i + 1);
      assert no == was[..i] + [Numeral(Digit(was[i]) + 1)] + Zeros(|was| - i - 1);
      return true;
    }

    method ZeroFrom(start: nat)
      requires start <= |no|
      modifies this`no
      ensures no == old(no[..start]) + Zeros(|old(no)| - start)
    {
      ghost var was := no;
      var j := start;
      while j < |no|
        invariant start <= j <= |no| == |was|
        invariant no == was[..start] + Zeros(j - start) + was[j..]
      {
        no := no[j := '0'];
        j := j + 1;
      }
    }

    /** `random` is what reading /dev/urandom delivers, should this call read it. */
    method GenMsgID(random: seq<byte>) returns (r: Result)
      requires Valid(State())
      modifies this
      ensures (State(), r) == Call(old(State()), random)
      ensures Valid(State())
    {
      hide Nines, Successor, Seed;
      CallKeepsValid(State(), random);
      if no == "" || no == maxNo {
        if |random| != MSG_ID_LENGTH {
          return Id("");
        }
        Reseed(random);
        return Id(no);
      }
      var ok := Increment();
      return if ok then Id(no) else Fault;
    }
  }

  /** One more nine crossed on the way to the front. */
  lemma CarryOne(s: string, i: nat)
    requires IsNumeral(s) && i < |s| && s[i] == '9'
    requires s[i + 1..] == Nines(|s| - i - 1)
    requires Successor(s) == Successor(s[..i + 1]) + Zeros(|s| - i - 1)
    ensures s[i..] == Nines(|s| - i)
    ensures Successor(s) == Successor(s[..i]) + Zeros(|s| - i)
  {
    NinesCons(|s| - i - 1);
    assert s[i..] == "9" + s[i + 1..];
    assert s[..i + 1][..i] == s[..i];
    assert "0" + Zeros(|s| - i - 1) == Zeros(|s| - i);
  }

  lemma NoCarryYet(s: string)
    requires IsNumeral(s)
    ensures s[|s|..] == Nines(0) && Successor(s) == Successor(s[..|s|]) + Zeros(0)
  {
    assert s[..|s|] == s;
  }

  lemma SuccessorNoCarry(s: string, i: nat)
    requires IsNumeral(s) && i < |s| && s[i] != '9'
    ensures Successor(s[..i + 1]) == s[..i] + [Numeral(Digit(s[i]) + 1)]
  {
    assert s[..i + 1][..i] == s[..i];
  }

  function Zeros(n: nat): string {
    seq(n, _ => '0')
  }

  lemma {:induction false} NinesCons(n: nat)
    ensures "9" + Nines(n) == Nines(n + 1)
  {
    if n > 0 {
      NinesCons(n - 1);
      assert "9" + (Nines(n - 1) + "9") == ("9" + Nines(n - 1)) + "9";
    }
  }

  lemma NotNines(s: string, i: nat)
    requires IsNumeral(s) && i < |s| && s[i] != '9'
    ensures s != Nines(|s|)
  {
  }
}
