/**
  `write_all` (redir.c:98-109): `write` is called until every byte is out.
  The kernel's answers are the sequence `replies`: a negative reply is a
  failing `write`, any other reply the number of bytes taken (never more
  than asked).
*/
module Writing {

  function Min(a: int, b: int): int { if a < b then a else b }

  /**
    The replies bring `remaining` bytes to an end: all written, or a
    failing `write` first. (A `write` that keeps taking nothing would make
    the loop run forever.)
  */
  ghost predicate Settles(replies: seq<int>, remaining: int)
    decreases |replies|
  {
    remaining <= 0 ||
    (|replies| > 0 && (replies[0] < 0 || Settles(replies[1..], remaining - Min(replies[0], remaining))))
  }

  /** Whether every byte gets written before any `write` fails. */
  ghost predicate WriteSucceeds(replies: seq<int>, remaining: int)
    decreases |replies|
  {
    remaining <= 0 ||
    (|replies| > 0 && replies[0] >= 0 && WriteSucceeds(replies[1..], remaining - Min(replies[0], remaining)))
  }

  /**
    The loop of `write_all`. `written` is what reaches the file: always a
    prefix of `data`, and all of it exactly when the call reports success.
  */
  method WriteAll(data: seq<char>, replies: seq<int>) returns (ok: bool, written: seq<char>)
    requires Settles(replies, |data|)
    ensures written <= data
    ensures ok <==> written == data
    ensures ok <==> WriteSucceeds(replies, |data|)
  {
    var done := 0;
    var i := 0;
    written := [];
    while done < |data|
      invariant 0 <= done <= |data| && 0 <= i <= |replies|
      invariant written == data[..done]
      invariant Settles(replies[i..], |data| - done)
      invariant WriteSucceeds(replies, |data|) == WriteSucceeds(replies[i..], |data| - done)
      decreases |replies| - i
    {
      var s := replies[i];
      assert replies[i..][1..] == replies[i + 1..];
      i := i + 1;
      if s < 0 {
        return false, written;
      }
      var n := Min(s, |data| - done);
      written := written + data[done..done + n];
      done := done + n;
    }
    ok := true;
  }
}
