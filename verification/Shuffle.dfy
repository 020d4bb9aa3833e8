/** The deterministic Fisher-Yates shuffle (Gray Paper, Appendix F). The hash function is a parameter. */
module Shuffle {
  import opened Bytes

  const ENTROPY_BYTES: nat := 32

  type Blob = seq<byte>
  type Hash = seq<byte> -> seq<byte>

  /** A list that callers share and the shuffle consumes. */
  class List<T> {
    var items: seq<T>

    constructor (items: seq<T>)
      ensures this.items == items
    {
      this.items := items;
    }
  }

  // ----- the recursive definition -----

  /** The last item moves to the place of the chosen one. */
  function Taken<T>(s: seq<T>, j: nat): (r: seq<T>)
    requires j < |s|
    ensures |r| == |s| - 1
  {
    s[j := s[|s| - 1]][..|s| - 1]
  }

  function Shuffled<T>(s: seq<T>, r: seq<nat>): (out: seq<T>)
    requires |r| >= |s|
    ensures |out| == |s|
    decreases |s|
  {
    if s == [] then [] else [s[r[0] % |s|]] + Shuffled(Taken(s, r[0] % |s|), r[1..])
  }

  lemma TakenElements<T>(s: seq<T>, j: nat)
    requires j < |s|
    ensures multiset(Taken(s, j)) + multiset{s[j]} == multiset(s)
  {
    var n := |s| - 1;
    if j == n {
      assert Taken(s, j) == s[..n] && s == s[..n] + [s[n]];
    } else {
      assert Taken(s, j) == s[..j] + [s[n]] + s[j + 1..n];
      assert s == s[..j] + [s[j]] + s[j + 1..n] + [s[n]];
    }
  }

  /** The shuffle permutes. */
  lemma {:induction false} ShufflePermutes<T>(s: seq<T>, r: seq<nat>)
    requires |r| >= |s|
    ensures multiset(Shuffled(s, r)) == multiset(s)
    decreases |s|
  {
    if s != [] {
      var j := r[0] % |s|;
      TakenElements(s, j);
      ShufflePermutes(Taken(s, j), r[1..]);
    }
  }

  ghost predicate Distinct<T>(s: seq<T>) {
    forall i, j | 0 <= i < j < |s| :: s[i] != s[j]
  }

  /** Numbers that are choices: the i-th one is below what is left. */
  predicate Choices(r: seq<nat>, n: nat) {
    |r| == n && forall i | 0 <= i < n :: r[i] < n - i
  }

  lemma TakenDistinct<T>(s: seq<T>, j: nat)
    requires j < |s| && Distinct(s)
    ensures Distinct(Taken(s, j))
  {
  }

  lemma ModBelow(a: nat, n: nat)
    requires a < n
    ensures a % n == a
  {
  }

  /**
   Different choices give different orders: as there are n! of both, every order is reached by exactly one list of
   choices.
   */
  lemma {:induction false} ChoicesDecideOrder<T>(s: seq<T>, r: seq<nat>, q: seq<nat>)
    requires Distinct(s) && Choices(r, |s|) && Choices(q, |s|) && Shuffled(s, r) == Shuffled(s, q)
    ensures r == q
    decreases |s|
  {
    hide Distinct;
    if s != [] {
      ModBelow(r[0], |s|);
      ModBelow(q[0], |s|);
      assert s[r[0]] == Shuffled(s, r)[0] == Shuffled(s, q)[0] == s[q[0]];
      SamePlace(s, r[0], q[0]);
      var rest := Taken(s, r[0]);
      TakenDistinct(s, r[0]);
      assert Shuffled(rest, r[1..]) == Shuffled(s, r)[1..] == Shuffled(s, q)[1..] == Shuffled(rest, q[1..]);
      ChoicesDecideOrder(rest, r[1..], q[1..]);
      assert r == [r[0]] + r[1..] && q == [q[0]] + q[1..];
    }
  }

  lemma SamePlace<T>(s: seq<T>, i: nat, j: nat)
    requires Distinct(s) && i < |s| && j < |s| && s[i] == s[j]
    ensures i == j
  {
  }

  // ----- the numbers -----

  ghost predicate Hashes32(hash: Hash) {
    forall bs :: |hash(bs)| == 32
  }

  /** The i-th number: four bytes of the hash of the entropy and the index of the block of eight. */
  function Number(hash: Hash, entropy: Blob, i: nat): nat
    requires |hash(entropy + LE(i / 8, 4))| == 32
  {
    FromLE(hash(entropy + LE(i / 8, 4))[(4 * i) % 32..(4 * i) % 32 + 4])
  }

  ghost function Numbers(hash: Hash, entropy: Blob, n: nat): (r: seq<nat>)
    requires Hashes32(hash)
    ensures |r| == n
  {
    seq(n, i requires 0 <= i => Number(hash, entropy, i))
  }

  method HashToNumberSequence(hash: Hash, entropy: Blob, length: nat) returns (result: seq<nat>)
    requires Hashes32(hash) && |entropy| == ENTROPY_BYTES
    ensures result == Numbers(hash, entropy, length)
  {
    hide LE, FromLE;
    result := [];
    var randomBytes := new byte[ENTROPY_BYTES + 4](i requires 0 <= i < ENTROPY_BYTES + 4 => if i < ENTROPY_BYTES
        then entropy[i] else 0);
    for i := 0 to length
      invariant randomBytes[..ENTROPY_BYTES] == entropy && result == Numbers(hash, entropy, length)[..i]
    {
      var counter := LE(i / 8, 4);
      forall k | 0 <= k < 4 {
        randomBytes[ENTROPY_BYTES + k] := counter[k];
      }
      assert randomBytes[..] == entropy + counter;
      var newHash := hash(randomBytes[..]);
      var numberStartIndex := (4 * i) % 32;
      var numberEndIndex := numberStartIndex + 4;
      result := result + [FromLE(newHash[numberStartIndex..numberEndIndex])];
    }
  }

  /**
   The in-place loop computes the recursive definition and leaves the given list empty. `None` where the check on the
   entropy fails.
   */
  method FisherYatesShuffle<T>(hash: Hash, arr: List<T>, entropy: Blob) returns (r: Option<seq<T>>)
    requires Hashes32(hash)
    modifies arr
    ensures |entropy| != ENTROPY_BYTES ==> r.None? && arr.items == old(arr.items)
    ensures |entropy| == ENTROPY_BYTES ==>
        r == Some(Shuffled(old(arr.items), Numbers(hash, entropy, |old(arr.items)|))) && arr.items == []
  {
    hide Number, Numbers, Shuffled;
    if |entropy| != ENTROPY_BYTES {
      return None;
    }
    var n := |arr.items|;
    var randomNumbers := HashToNumberSequence(hash, entropy, n);
    var result := TakeAll(arr, randomNumbers);
    r := Some(result);
  }

  /** The loop: swap the chosen item with the last one and shorten the list. */
  method TakeAll<T>(arr: List<T>, randomNumbers: seq<nat>) returns (result: seq<T>)
    requires |randomNumbers| == |arr.items|
    modifies arr
    ensures result == Shuffled(old(arr.items), randomNumbers) && arr.items == []
  {
    hide Taken, Shuffled;
    var n := |arr.items|;
    result := [];
    var itemsLeft := n;
    ghost var total := Shuffled(arr.items, randomNumbers);
    for i := 0 to n
      invariant itemsLeft == n - i == |arr.items|
      invariant result + Shuffled(arr.items, randomNumbers[i..]) == total
    {
      ShuffleStep(arr.items, randomNumbers[i..]);
      assert randomNumbers[i..][1..] == randomNumbers[i + 1..];
      var j := randomNumbers[i] % itemsLeft;
      result := result + [arr.items[j]];
      itemsLeft := itemsLeft - 1;
      arr.items := arr.items[j := arr.items[itemsLeft]];
      arr.items := arr.items[..itemsLeft];
    }
    ShuffleNothing(arr.items, randomNumbers[n..]);
  }

  lemma ShuffleStep<T>(s: seq<T>, r: seq<nat>)
    requires s != [] && |r| >= |s|
    ensures var j := r[0] % |s|;
            Taken(s, j) == s[j := s[|s| - 1]][..|s| - 1] && Shuffled(s, r) == [s[j]] + Shuffled(Taken(s, j), r[1..])
  {
  }

  lemma ShuffleNothing<T>(s: seq<T>, r: seq<nat>)
    requires s == []
    ensures Shuffled(s, r) == []
  {
  }
}
