/** What both chats do with an array and its counter. */
module Arrays {

  /** Appending at the counter, while it is below `limit`. */
  function AppendWithin<T>(s: seq<T>, x: T, limit: nat): seq<T> {
    if |s| >= limit then s else s + [x]
  }

  /** The sequence without its element at `i`. */
  function Without<T>(s: seq<T>, i: nat): seq<T>
    requires i < |s|
  {
    s[..i] + s[i + 1..]
  }

  /** Shifts a[i+1..count] one place to the left. */
  method ShiftOver<T>(a: array<T>, i: nat, count: nat)
    requires i < count <= a.Length
    modifies a
    ensures a[..count - 1] == Without(old(a[..count]), i)
  {
    ghost var all := a[..];
    for j := i to count - 1
      invariant forall k :: 0 <= k < i || j <= k < a.Length ==> a[k] == all[k]
      invariant forall k :: i <= k < j ==> a[k] == all[k + 1]
    {
      a[j] := a[j + 1];
    }
    assert a[..i] == all[..i] && a[i..count - 1] == all[i + 1..count];
    assert a[..count - 1] == a[..i] + a[i..count - 1];
  }
}
