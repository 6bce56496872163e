/** The keys of the persistent store: a prefix that tells the kind of record and the message id in decimal. */
module StoreKeys {

  const PUBLISH_SENT := "s-"
  const PUBREL_SENT := "sc-"
  const PUBLISH_RECEIVED := "r-"
  const COMMAND := "c-"
  const QUEUE := "q-"
  const MESSAGE_FILENAME_LENGTH := 8
  const PERSISTENCE_MAX_KEY_LENGTH := 8

  function Digit(d: nat): char
    requires d < 10
  {
    ['0', '1', '2', '3', '4', '5', '6', '7', '8', '9'][d]
  }

  predicate IsDigit(c: char) { '0' <= c <= '9' }

  function Decimal(n: nat): (s: string)
    ensures |s| > 0 && forall i :: 0 <= i < |s| ==> IsDigit(s[i])
  {
    if n < 10 then [Digit(n)] else Decimal(n / 10) + [Digit(n % 10)]
  }

  function SentKey(id: nat): string { PUBLISH_SENT + Decimal(id) }

  function ReleaseKey(id: nat): string { PUBREL_SENT + Decimal(id) }

  function ReceivedKey(id: nat): string { PUBLISH_RECEIVED + Decimal(id) }

  // strncmp(s, prefix, strlen(prefix)) == 0
  predicate StartsWith(s: string, prefix: string) {
    |prefix| <= |s| && s[..|prefix|] == prefix
  }

  // strstr(s, t) != NULL
  predicate Contains(s: string, t: string) {
    exists i :: 0 <= i <= |s| - |t| && s[i..][..|t|] == t
  }

  datatype Kind = Ignored | Received | SentPublish | Release | Unknown

  // The order of the tests is that of the restoring loop
  function KindOf(key: string): Kind {
    if StartsWith(key, COMMAND) || StartsWith(key, QUEUE) then Ignored
    else if Contains(key, PUBLISH_RECEIVED) then Received
    else if Contains(key, PUBLISH_SENT) then SentPublish
    else if Contains(key, PUBREL_SENT) then Release
    else Unknown
  }

  // The records that are none of the restoring loop's: those of commands and of queued messages
  predicate ForOthers(key: string) { "c-" <= key || "q-" <= key }

  // Exactly these are passed over
  lemma IgnoredExactly(key: string)
    ensures KindOf(key) == Ignored <==> ForOthers(key)
    ensures StartsWith(key, QUEUE) <==> "q-" <= key
  {
  }

  // The other kinds, in the order in which the loop asks
  lemma KindByText(key: string)
    requires !("c-" <= key) && !("q-" <= key)
    ensures KindOf(key) ==
      if Contains(key, "r-") then Received else if Contains(key, "s-") then SentPublish
      else if Contains(key, "sc-") then Release else Unknown
  {
  }

  // The keys as they are printed
  lemma KeysByText(id: nat)
    ensures SentKey(id) == "s-" + Decimal(id) && ReleaseKey(id) == "sc-" + Decimal(id)
    ensures ReceivedKey(id) == "r-" + Decimal(id) && QueueKey(id) == "q-" + Decimal(id)
    ensures Decimal(0) == "0" && Decimal(407) == "407" && Decimal(65535) == "65535"
  {
    assert Decimal(4) == "4" && Decimal(40) == "40";
    assert Decimal(6) == "6" && Decimal(65) == "65" && Decimal(655) == "655" && Decimal(6553) == "6553";
  }

  lemma {:induction false} DecimalInjective(a: nat, b: nat)
    requires Decimal(a) == Decimal(b)
    ensures a == b
  {
    var s, t := Decimal(a), Decimal(b);
    assert s[|s| - 1] == Digit(a % 10) && t[|t| - 1] == Digit(b % 10);
    assert a % 10 == b % 10;
    if a >= 10 && b >= 10 {
      assert s[..|s| - 1] == Decimal(a / 10) && t[..|t| - 1] == Decimal(b / 10);
      DecimalInjective(a / 10, b / 10);
    }
  }

  function Pow10(k: nat): nat { if k == 0 then 1 else 10 * Pow10(k - 1) }

  lemma {:induction false} DecimalLength(n: nat, k: nat)
    requires k >= 1
    ensures |Decimal(n)| <= k <==> n < Pow10(k)
  {
    if n >= 10 && k > 1 {
      DecimalLength(n / 10, k - 1);
    } else if n >= 10 {
      assert |Decimal(n)| == |Decimal(n / 10)| + 1 && Pow10(1) == 10;
    } else {
      PowAtLeastTen(k);
    }
  }

  lemma {:induction false} PowAtLeastTen(k: nat)
    requires k >= 1
    ensures Pow10(k) >= 10
  {
    if k > 1 { PowAtLeastTen(k - 1); }
  }

  // Every key fits the buffers of MESSAGE_FILENAME_LENGTH + 1 bytes that sprintf writes to
  lemma KeysFit(id: nat)
    requires id <= 65535
    ensures |SentKey(id)| < |ReleaseKey(id)| <= MESSAGE_FILENAME_LENGTH && |ReceivedKey(id)| < |ReleaseKey(id)|
    ensures |ReleaseKey(id)| <= 8 && (|ReleaseKey(id)| == 8 <==> id >= 10000) && MESSAGE_FILENAME_LENGTH == 8
  {
    assert Pow10(5) == 100000 && Pow10(4) == 10000;
    DecimalLength(id, 5);
    DecimalLength(id, 4);
  }

  // Two keys are equal only for equal kinds and ids
  lemma KeysApart(a: nat, b: nat)
    ensures SentKey(a) == SentKey(b) ==> a == b
    ensures ReleaseKey(a) == ReleaseKey(b) ==> a == b
    ensures ReceivedKey(a) == ReceivedKey(b) ==> a == b
    ensures SentKey(a) != ReleaseKey(b) && SentKey(a) != ReceivedKey(b) && ReleaseKey(a) != ReceivedKey(b)
  {
    assert SentKey(a)[2..] == Decimal(a) && SentKey(b)[2..] == Decimal(b);
    assert ReleaseKey(a)[3..] == Decimal(a) && ReleaseKey(b)[3..] == Decimal(b);
    assert ReceivedKey(a)[2..] == Decimal(a) && ReceivedKey(b)[2..] == Decimal(b);
    assert SentKey(a)[0] == 's' && ReleaseKey(b)[0] == 's' && ReceivedKey(b)[0] == 'r';
    assert SentKey(a)[1] == '-' && ReleaseKey(b)[1] == 'c';
    assert ReleaseKey(a)[0] == 's';
    if Decimal(a) == Decimal(b) { DecimalInjective(a, b); }
  }

  lemma NotIn(key: string, t: string, n: nat)
    requires |t| == 2 && t[0] in "rs" && t[1] == '-' && 2 <= n <= |key| && key[n - 1] == '-'
    requires (forall i :: 0 <= i < n - 1 ==> key[i] != '-') && forall i :: n <= i < |key| ==> IsDigit(key[i])
    ensures Contains(key, t) <==> key[n - 2] == t[0]
  {
    assert key[n - 2..][..2] == [key[n - 2], key[n - 1]];
    forall i | 0 <= i <= |key| - 2 && key[i..][..2] == t ensures i == n - 2 {
      assert key[i + 1] == t[1];
    }
  }

  // The substring tests of the restoring loop tell the three kinds of message record apart
  lemma KindsAreTold(id: nat)
    ensures KindOf(SentKey(id)) == SentPublish && KindOf(ReleaseKey(id)) == Release &&
      KindOf(ReceivedKey(id)) == Received
  {
    var s, c, r := SentKey(id), ReleaseKey(id), ReceivedKey(id);
    assert s[0] == 's' && c[0] == 's' && r[0] == 'r';
    NotIn(s, PUBLISH_RECEIVED, 2);
    NotIn(s, PUBLISH_SENT, 2);
    NotIn(c, PUBLISH_RECEIVED, 3);
    NotIn(c, PUBLISH_SENT, 3);
    assert c[0..][..3] == PUBREL_SENT;
    NotIn(r, PUBLISH_RECEIVED, 2);
  }

  // ---------------- queue keys ----------------

  function QueueKey(n: nat): string { QUEUE + Decimal(n) }

  lemma QueueKeysApart(a: nat, b: nat)
    requires QueueKey(a) == QueueKey(b)
    ensures a == b
  {
    assert Decimal(a) == QueueKey(a)[2..] && Decimal(b) == QueueKey(b)[2..];
    DecimalInjective(a, b);
  }

  // A queue key fits a buffer of PERSISTENCE_MAX_KEY_LENGTH + 1 bytes exactly up to six digits
  lemma QueueKeyFits(n: nat)
    ensures |QueueKey(n)| <= PERSISTENCE_MAX_KEY_LENGTH <==> n <= 999999
  {
    assert Pow10(6) == 1000000;
    DecimalLength(n, 6);
  }

  function Value(c: char): nat
    requires IsDigit(c)
  {
    c as int - '0' as int
  }

  // atoi on what follows, with `acc` read so far
  function Atoi(acc: nat, s: string): nat
    decreases s
  {
    if s == [] || !IsDigit(s[0]) then acc else Atoi(10 * acc + Value(s[0]), s[1..])
  }

  lemma {:induction false} AtoiAppended(acc: nat, s: string, c: char)
    requires IsDigit(c) && forall i :: 0 <= i < |s| ==> IsDigit(s[i])
    ensures Atoi(acc, s + [c]) == 10 * Atoi(acc, s) + Value(c)
    decreases s
  {
    if s != [] {
      AtoiAppended(10 * acc + Value(s[0]), s[1..], c);
      assert (s + [c])[1..] == s[1..] + [c];
    } else {
      assert ([] + [c])[1..] == [];
    }
  }

  // The number in a key is read back
  lemma {:induction false} AtoiDecimal(n: nat)
    ensures Atoi(0, Decimal(n)) == n
  {
    assert forall d :: 0 <= d < 10 ==> Value(Digit(d)) == d;
    if n >= 10 {
      AtoiDecimal(n / 10);
      AtoiAppended(0, Decimal(n / 10), Digit(n % 10));
    } else {
      assert Decimal(n)[1..] == [];
    }
  }

  // pkeys: the keys of a store, each once, in no particular order
  method KeysOf<V>(store: map<string, V>) returns (keys: seq<string>)
    ensures (forall key :: key in store ==> key in keys) && (forall i :: 0 <= i < |keys| ==> keys[i] in store)
    ensures forall i, j :: 0 <= i < j < |keys| ==> keys[i] != keys[j]
  {
    keys := [];
    var rest := store.Keys;
    while rest != {}
      invariant rest <= store.Keys
      invariant forall i :: 0 <= i < |keys| ==> keys[i] in store && keys[i] !in rest
      invariant forall key :: key in store && key !in rest ==> key in keys
      invariant forall i, j :: 0 <= i < j < |keys| ==> keys[i] != keys[j]
      decreases |rest|
    {
      var key :| key in rest;
      rest := rest - {key};
      keys := keys + [key];
    }
  }
}
