/** A chat as the window keeps it: a list of turns, each the dictionary
    `{"User": speaker, "Message": text}`, plus Python list slicing and the
    JSON text of a history. */
module Chat {
  import opened Text
  import opened Json

  /** One chat entry; `user` is "User", "Assistant", "Console", "File",
      "Folder", ... */
  datatype Turn = Turn(user: string, message: string)

  /** How Python clamps a slice bound `i` into `0..n` (a negative bound
      counts from the end). */
  function SliceBound(i: int, n: nat): (r: nat)
    ensures r <= n
    ensures 0 <= i <= n ==> r == i
    ensures -(n as int) <= i < 0 ==> r == i + n
    ensures i < -(n as int) ==> r == 0
    ensures i > n ==> r == n
  {
    if i < 0 then (if i + n < 0 then 0 else i + n)
    else if i > n then n else i
  }

  /** Python's `s[start:stop]`. */
  function Slice<T>(s: seq<T>, start: int, stop: int): (r: seq<T>)
    ensures |r| <= |s|
    ensures SliceBound(start, |s|) <= SliceBound(stop, |s|) ==>
      r == s[SliceBound(start, |s|)..SliceBound(stop, |s|)]
    ensures SliceBound(start, |s|) > SliceBound(stop, |s|) ==> r == []
  {
    var a := SliceBound(start, |s|);
    var b := SliceBound(stop, |s|);
    if a < b then s[a..b] else []
  }

  /** `json.dumps(turn)`: keys in insertion order, "User" then "Message". */
  function DumpsTurn(t: Turn): string {
    DumpsObject([("User", DumpsString(t.user)), ("Message", DumpsString(t.message))])
  }

  /** `json.dumps(history)`. */
  function DumpsHistory(h: seq<Turn>): string {
    DumpsList(TurnTexts(h))
  }

  /** Each turn dumped on its own, in history order. */
  function TurnTexts(h: seq<Turn>): (r: seq<string>)
    ensures |r| == |h|
    ensures forall i :: 0 <= i < |h| ==> r[i] == DumpsTurn(h[i])
  {
    seq(|h|, i requires 0 <= i < |h| => DumpsTurn(h[i]))
  }
}
