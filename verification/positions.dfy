/** Positions in a sequence that satisfy a test, as the program's loops
    visit them: in increasing order. */
module Positions {

  /** The positions holding `true`, in order. */
  function Trues(ok: seq<bool>): (idx: seq<nat>)
    ensures forall k :: 0 <= k < |idx| ==> idx[k] < |ok| && ok[idx[k]]
    ensures forall k, l :: 0 <= k < l < |idx| ==> idx[k] < idx[l]
    ensures forall i :: 0 <= i < |ok| && ok[i] ==> i in idx
  {
    if |ok| == 0 then []
    else
      var init := Trues(ok[..|ok| - 1]);
      if ok[|ok| - 1] then init + [|ok| - 1] else init
  }
}
