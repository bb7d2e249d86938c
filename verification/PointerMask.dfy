/** Exclusive-or on unbounded natural numbers, and the canary mask FreeRTOS puts
    over free-list pointers (freertos/heap.py, `_deobfuscate`). */
module PointerMask {
  import opened Common

  function Xor(a: nat, b: nat): nat
    decreases a + b
  {
    if a == 0 && b == 0 then 0 else 2 * Xor(a / 2, b / 2) + (a + b) % 2
  }

  lemma {:induction false} XorZero(a: nat)
    ensures Xor(a, 0) == a
    decreases a
  {
    if a > 0 {
      XorZero(a / 2);
    }
  }

  /** Masking twice with the same value undoes itself. */
  lemma {:induction false} XorCancels(a: nat, c: nat)
    ensures Xor(Xor(a, c), c) == a
    decreases a + c
  {
    hide Xor;
    if c == 0 {
      XorZero(a);
      XorZero(Xor(a, 0));
    } else {
      XorCancels(a / 2, c / 2);
      XorBits(a, c);
      XorBits(Xor(a, c), c);
    }
  }

  /** The halves and the low bits are combined separately. */
  lemma XorBits(a: nat, c: nat)
    ensures Xor(a, c) / 2 == Xor(a / 2, c / 2) && Xor(a, c) % 2 == (a % 2 + c % 2) % 2
  {
    assert (a + c) % 2 == (a % 2 + c % 2) % 2;
  }

  /** A masked value vanishes exactly when it equals its mask. */
  lemma {:induction false} XorVanishes(a: nat, c: nat)
    ensures Xor(a, c) == 0 <==> a == c
    decreases a + c
  {
    if a > 0 || c > 0 {
      XorVanishes(a / 2, c / 2);
    }
  }

  /** `heapPROTECT_BLOCK_POINTER`: how the kernel stores a pointer. */
  function Obfuscate(pointer: nat, canary: nat): nat {
    Xor(pointer, canary)
  }

  /** Reading a stored pointer back; NULL stays NULL whatever the canary. */
  function Deobfuscate(stored: nat, canary: nat): nat {
    if stored == 0 then 0 else Xor(stored, canary)
  }

  /** The read-back recovers a non-null pointer unless it equals the canary, and
      then it reads as NULL. */
  lemma RoundTrip(pointer: nat, canary: nat)
    requires pointer != 0
    ensures Deobfuscate(Obfuscate(pointer, canary), canary) == (if pointer == canary then 0 else pointer)
    ensures Obfuscate(pointer, canary) == 0 <==> pointer == canary
  {
    XorCancels(pointer, canary);
    XorVanishes(pointer, canary);
  }

  /** `_free_list_head`: the head of the chain, or nothing before initialisation. */
  function FreeListHead(stored: nat, canary: nat): Option<nat> {
    if stored == 0 then None else Some(if canary != 0 then Xor(stored, canary) else stored)
  }
}
