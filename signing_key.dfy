/**
 * The signing-key expansion shared by token issuance
 * (Tienda/Controllers/AuthController.cs:116-119) and token validation
 * (Tienda/Program.cs:14-17): while the UTF-8 encoding of the key is shorter
 * than 64 bytes, the key is appended to itself.
 */
module SigningKey {
  import opened Utf8

  /** HMAC-SHA-256 keys are brought up to this many bytes. */
  const MinKeyBytes: nat := 64

  /** `n` copies of `s`, one after the other. */
  function Repeat(s: string, n: nat): string {
    if n == 0 then [] else s + Repeat(s, n - 1)
  }

  function Pow2(n: nat): nat {
    if n == 0 then 1 else 2 * Pow2(n - 1)
  }

  /** The value of the loop variable after `n` turns of the loop body `tokenKey += tokenKey`. */
  function Doubled(key: string, n: nat): string {
    if n == 0 then key else Doubled(key, n - 1) + Doubled(key, n - 1)
  }

  /** Doubling a non-empty key doubles its byte count, which is never zero. */
  lemma DoubleBytes(key: string)
    requires key != []
    ensures |Encode(key + key)| == 2 * |Encode(key)| > |Encode(key)|
  {
    EncodeAppend(key, key);
  }

  /**
   * What the loop leaves in the key: the key itself once it has 64 bytes,
   * otherwise the expansion of the key doubled. The result has at least 64
   * bytes, and fewer than 128 when the key started short.
   */
  function Expanded(key: string): (r: string)
    requires key != []
    ensures |Encode(r)| >= MinKeyBytes
    ensures |Encode(key)| >= MinKeyBytes ==> r == key
    ensures |Encode(key)| < MinKeyBytes ==> |Encode(r)| < 2 * MinKeyBytes
    decreases MinKeyBytes - |Encode(key)|
  {
    if |Encode(key)| >= MinKeyBytes then key
    else
      DoubleBytes(key);
      Expanded(key + key)
  }

  /** The loop itself: it terminates for every non-empty key and computes `Expanded`. */
  method ExpandKey(key: string) returns (k: string)
    requires key != []
    ensures k == Expanded(key)
  {
    k := key;
    while |Encode(k)| < MinKeyBytes
      invariant k != []
      invariant Expanded(k) == Expanded(key)
      decreases MinKeyBytes - |Encode(k)|
    {
      DoubleBytes(k);
      k := k + k;
    }
  }

  lemma {:induction false} RepeatAdd(s: string, a: nat, b: nat)
    ensures Repeat(s, a + b) == Repeat(s, a) + Repeat(s, b)
    decreases a
  {
    if a > 0 {
      RepeatAdd(s, a - 1, b);
    }
  }

  /** After `n` turns the key is the original repeated 2^n times. */
  lemma {:induction false} DoubledIsRepeat(key: string, n: nat)
    ensures Doubled(key, n) == Repeat(key, Pow2(n))
  {
    if n == 0 {
      assert Repeat(key, 0) == [];
      assert Repeat(key, 1) == key + [];
    } else {
      DoubledIsRepeat(key, n - 1);
      RepeatAdd(key, Pow2(n - 1), Pow2(n - 1));
    }
  }

  lemma {:induction false} DoubledShift(key: string, n: nat)
    ensures Doubled(key + key, n) == Doubled(key, n + 1)
  {
    if n > 0 {
      DoubledShift(key, n - 1);
    }
  }

  /** `n` turns bring the key to 64 bytes and no fewer turns do: the loop stops after exactly `n` turns. */
  ghost predicate FirstLongDoubling(key: string, n: nat) {
    && |Encode(Doubled(key, n))| >= MinKeyBytes
    && forall j: nat :: j < n ==> |Encode(Doubled(key, j))| < MinKeyBytes
  }

  /**
   * The expanded key is the FIRST doubling of the key that reaches 64 bytes:
   * every earlier one is shorter.
   */
  lemma {:induction false} ExpandedIsFirstLongDoubling(key: string)
    requires key != []
    ensures exists n: nat :: Expanded(key) == Doubled(key, n) && FirstLongDoubling(key, n)
    decreases MinKeyBytes - |Encode(key)|
  {
    if |Encode(key)| >= MinKeyBytes {
      assert Expanded(key) == Doubled(key, 0);
    } else {
      DoubleBytes(key);
      ExpandedIsFirstLongDoubling(key + key);
      var m: nat :| Expanded(key + key) == Doubled(key + key, m) && FirstLongDoubling(key + key, m);
      DoubledShift(key, m);
      forall j: nat | j < m + 1
        ensures |Encode(Doubled(key, j))| < MinKeyBytes
      {
        if j > 0 {
          DoubledShift(key, j - 1);
        }
      }
      assert FirstLongDoubling(key, m + 1);
    }
  }

  /** The expanded key is the configured key repeated a power of two times. */
  lemma ExpandedIsRepetition(key: string)
    requires key != []
    ensures exists n: nat :: Expanded(key) == Repeat(key, Pow2(n))
  {
    ExpandedIsFirstLongDoubling(key);
    var n: nat :| Expanded(key) == Doubled(key, n);
    DoubledIsRepeat(key, n);
  }

  /**
   * With an empty key the loop body changes nothing: after any number of
   * turns the key is still empty, so `|Encode(k)| < 64` stays true forever.
   */
  lemma {:induction false} EmptyKeyStaysEmpty(n: nat)
    ensures Doubled("", n) == ""
    ensures |Encode(Doubled("", n))| < MinKeyBytes
  {
    if n > 0 {
      EmptyKeyStaysEmpty(n - 1);
    }
  }
}
