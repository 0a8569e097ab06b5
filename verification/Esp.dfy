/** Types shared by every part of the model: ESP-IDF error codes and C integer widths. */
module Esp {

  datatype Option<+T> = None | Some(value: T)

  /** esp_err_t, with the codes the component compares against named and every other value kept. */
  datatype Err =
    | Ok
    | InvalidArg
    | InvalidState
    | NoMem
    | NotFinished
    | ValidateFailed
    | InProgress
    | Other(code: int)

  type int32 = x: int | -0x8000_0000 <= x < 0x8000_0000
  type uint32 = x: int | 0 <= x < 0x1_0000_0000

  /** What a conversion to a 32-bit int keeps of a wider value. */
  function TruncateToInt32(x: int): int32 {
    var low := x % 0x1_0000_0000;
    if low < 0x8000_0000 then low else low - 0x1_0000_0000
  }

  /** Scaling two ordered factors keeps their order. */
  lemma ScaleOrder(a: int, b: int, k: int)
    requires k >= 0
    ensures a <= b ==> a * k <= b * k
  {
    if a <= b {
      assert (b - a) * k >= 0;
    }
  }

  /** A number no member of a finite set reaches: a fresh identifier. */
  lemma {:induction false} AboveAll(used: set<nat>) returns (t: nat)
    ensures forall v :: v in used ==> v < t
  {
    if used == {} {
      t := 0;
    } else {
      var u :| u in used;
      var s := AboveAll(used - {u});
      t := if s > u then s else u + 1;
      assert forall v :: v in used ==> v == u || v in used - {u};
    }
  }
}
