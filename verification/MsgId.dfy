/** The message id generator (common/msg_id_util.cc): twenty decimal digits, seeded at random and then
    counted up in place. */
module MsgIds {
  import opened Bytes

  const ID_LEN: nat := 20

  predicate Digits(s: string) {
    forall i :: 0 <= i < |s| ==> '0' <= s[i] <= '9'
  }

  predicate AllNines(s: string) {
    forall i :: 0 <= i < |s| ==> s[i] == '9'
  }

  function Nines(n: nat): (s: string)
    ensures |s| == n && AllNines(s)
  {
    seq(n, _ => '9')
  }

  function Pow10(n: nat): (p: nat)
    ensures p > 0
  {
    if n == 0 then 1 else 10 * Pow10(n - 1)
  }

  /** The number the digits denote. */
  function Value(s: string): nat
    requires Digits(s)
  {
    if s == [] then 0 else 10 * Value(s[..|s| - 1]) + (s[|s| - 1] as int - '0' as int)
  }

  lemma {:induction false} ValueBound(s: string)
    requires Digits(s)
    ensures Value(s) < Pow10(|s|)
    ensures Value(s) == Pow10(|s|) - 1 <==> AllNines(s)
  {
    if s != [] {
      ValueBound(s[..|s| - 1]);
    }
  }

  /** The next id: the last digit below nine goes up by one and the nines behind it become zeros. */
  function Increment(s: string): string
    requires Digits(s) && !AllNines(s)
  {
    var n := |s| - 1;
    if s[n] == '9' then Increment(s[..n]) + ['0'] else s[..n] + [s[n] + 1 as char]
  }

  lemma {:induction false} IncrementAddsOne(s: string)
    requires Digits(s) && !AllNines(s)
    ensures var t := Increment(s); |t| == |s| && Digits(t) && Value(t) == Value(s) + 1
  {
    var n := |s| - 1;
    var t := Increment(s);
    if s[n] == '9' {
      IncrementAddsOne(s[..n]);
      assert t[..n] == Increment(s[..n]);
    } else {
      assert t[..n] == s[..n];
    }
  }

  lemma {:induction false} IncrementByPosition(s: string, i: nat)
    requires Digits(s) && i < |s| && s[i] != '9' && AllNines(s[i + 1..])
    ensures !AllNines(s)
    ensures Increment(s) == s[..i] + [s[i] + 1 as char] + seq(|s| - i - 1, _ => '0')
    decreases |s|
  {
    var n := |s| - 1;
    if i < n {
      assert s[n] == s[i + 1..][n - i - 1] == '9';
      assert s[..n][i + 1..] == s[i + 1..][..n - i - 1];
      IncrementByPosition(s[..n], i);
      assert seq(|s| - i - 1, _ => '0') == seq(n - i - 1, _ => '0') + ['0'];
    }
  }

  /** The ids handed out by n calls from state s on, as long as nothing is reseeded. */
  function Ids(s: string, n: nat): (ids: seq<string>)
    requires Digits(s) && Value(s) + n < Pow10(|s|)
    ensures |ids| == n
    decreases n
  {
    if n == 0 then []
    else
      ValueBound(s);
      IncrementAddsOne(s);
      [Increment(s)] + Ids(Increment(s), n - 1)
  }

  lemma {:induction false} IdAt(s: string, n: nat, k: nat)
    requires Digits(s) && Value(s) + n < Pow10(|s|) && k < n
    ensures var id := Ids(s, n)[k]; |id| == |s| && Digits(id) && Value(id) == Value(s) + k + 1
    decreases n
  {
    hide Value, Increment;
    ValueBound(s);
    IncrementAddsOne(s);
    var t := Increment(s);
    assert Ids(s, n) == [t] + Ids(t, n - 1);
    if k > 0 {
      IdAt(t, n - 1, k - 1);
    }
  }

  /** Between two reseeds the k-th id denotes the seed plus k+1, so no id is handed out twice. */
  lemma IdsAreDistinct(s: string, n: nat)
    requires Digits(s) && Value(s) + n < Pow10(|s|)
    ensures var ids := Ids(s, n);
      && (forall k :: 0 <= k < n ==> |ids[k]| == |s| && Digits(ids[k]) && Value(ids[k]) == Value(s) + k + 1)
      && (forall j, k :: 0 <= j < k < n ==> ids[j] != ids[k])
  {
    hide Value, Ids, Digits, Pow10;
    forall k | 0 <= k < n
      ensures var id := Ids(s, n)[k]; |id| == |s| && Digits(id) && Value(id) == Value(s) + k + 1
    {
      IdAt(s, n, k);
    }
  }

  // ---------------------------------------------------------------------------------------------
  // The thread-local state

  function DigitsOf(random: seq<Byte>): (s: string)
    ensures |s| == |random| && Digits(s) && forall i :: 0 <= i < |s| ==> s[i] as int == '0' as int + random[i] % 10
  {
    seq(|random|, i requires 0 <= i < |random| => (random[i] % 10) as char + '0')
  }

  /** After `seeds` reseeds the string of nines has twenty digits for each of them. */
  ghost predicate Reached(no: string, max: string, seeds: nat) {
    && max == Nines(ID_LEN * seeds)
    && if seeds == 0 then no == [] else |no| == ID_LEN && Digits(no)
  }

  /** The largest id is recognised, and reseeded, exactly until the second reseed: after that the string
      it is compared with is longer than any id, and the carry loop would run off the front. */
  lemma LargestIdIsCaught(no: string, max: string, seeds: nat)
    requires Reached(no, max, seeds)
    ensures no == [] || no == max <==> AllNines(no) && seeds <= 1
  {
    if seeds >= 2 {
      assert |max| == 20 * seeds;
    }
  }

  /** That comes about: two seeds of nines, one right after the other, leave the id of all nines with a
      longer string to compare it with. */
  method LargestIdAgain() returns (generator: MsgIDUtil)
    ensures fresh(generator) && Reached(generator.messageIDNo, generator.maxMessageIDNo, generator.seeds)
    ensures generator.messageIDNo == Nines(ID_LEN) != generator.maxMessageIDNo
  {
    generator := new MsgIDUtil();
    var nines: seq<Byte> := seq(ID_LEN, _ => 9);
    assert DigitsOf(nines) == Nines(ID_LEN);
    var _ := generator.MsgIDGenerator(nines);
    var _ := generator.MsgIDGenerator(nines);
    assert |generator.maxMessageIDNo| == 40;
  }

  class MsgIDUtil {
    var messageIDNo: string
    var maxMessageIDNo: string
    ghost var seeds: nat

    constructor ()
      ensures messageIDNo == "" && maxMessageIDNo == "" && seeds == 0
      ensures Reached(messageIDNo, maxMessageIDNo, seeds)
    {
      messageIDNo, maxMessageIDNo, seeds := "", "", 0;
    }

    /** `random` is what /dev/urandom would deliver now; a short read makes the call fail. */
    method MsgIDGenerator(random: seq<Byte>) returns (id: string)
      requires Reached(messageIDNo, maxMessageIDNo, seeds)
      requires AllNines(messageIDNo) ==> seeds <= 1
      modifies this
      ensures Reached(messageIDNo, maxMessageIDNo, seeds) && (id == "" || |id| == 20)
      ensures old(AllNines(messageIDNo)) && |random| == 20 ==>
        |id| == 20 && forall i :: 0 <= i < 20 ==> id[i] as int == '0' as int + random[i] % 10
      ensures old(AllNines(messageIDNo)) && |random| == ID_LEN ==>
        seeds == old(seeds) + 1 && id == messageIDNo == DigitsOf(random)
      ensures old(AllNines(messageIDNo)) && |random| != ID_LEN ==>
        id == "" && messageIDNo == old(messageIDNo) && seeds == old(seeds)
      ensures !old(AllNines(messageIDNo)) ==>
        seeds == old(seeds) && id == messageIDNo == Increment(old(messageIDNo)) && maxMessageIDNo == old(maxMessageIDNo)
    {
      LargestIdIsCaught(messageIDNo, maxMessageIDNo, seeds);
      if messageIDNo == "" || messageIDNo == maxMessageIDNo {
        if |random| != ID_LEN {
          return "";
        }
        Reseed(random);
      } else {
        IncrementAddsOne(messageIDNo);
        CountUp();
      }
      id := messageIDNo;
    }

    /** The mapping loop of the first branch; it lengthens the string of nines as it goes. */
    method Reseed(random: seq<Byte>)
      requires Reached(messageIDNo, maxMessageIDNo, seeds) && |random| == ID_LEN
      modifies this
      ensures Reached(messageIDNo, maxMessageIDNo, seeds)
      ensures seeds == old(seeds) + 1 && messageIDNo == DigitsOf(random)
    {
      var res := "";
      for i := 0 to ID_LEN
        invariant res == DigitsOf(random)[..i]
        invariant maxMessageIDNo == Nines(ID_LEN * seeds + i)
        invariant seeds == old(seeds)
      {
        res := res + [(random[i] % 10) as char + '0'];
        maxMessageIDNo := maxMessageIDNo + "9";
      }
      messageIDNo := res;
      seeds := seeds + 1;
    }

    /** The carry loop and the zeroing loop of the second branch. */
    method CountUp()
      requires Digits(messageIDNo) && !AllNines(messageIDNo)
      modifies this`messageIDNo
      ensures messageIDNo == Increment(old(messageIDNo))
    {
      ghost var no := messageIDNo;
      var i := |messageIDNo| - 1;
      while messageIDNo[i] == '9'
        invariant 0 <= i < |no| && AllNines(no[i + 1..])
        decreases i
      {
        assert no[i..] == [no[i]] + no[i + 1..];
        if i == 0 {
          assert no[0..] == no;
        }
        i := i - 1;
      }
      IncrementByPosition(no, i);
      messageIDNo := messageIDNo[i := messageIDNo[i] + 1 as char];
      for j := i + 1 to |messageIDNo|
        invariant messageIDNo == no[..i] + [no[i] + 1 as char] + seq(j - i - 1, _ => '0') + no[j..]
      {
        messageIDNo := messageIDNo[j := '0'];
      }
    }
  }
}
