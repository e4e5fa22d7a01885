/** Bytes, and readers over them. */
module Bytes {
  newtype Byte = b: int | 0 <= b < 256

  type Text = seq<Byte>

  function Take(s: Text, n: nat): Text {
    if |s| <= n then s else s[..n]
  }

  function Drop(s: Text, n: nat): Text {
    if |s| <= n then [] else s[n..]
  }

  lemma TakeDrop(s: Text, n: nat)
    ensures Take(s, n) + Drop(s, n) == s
  {
  }

  /** A one-shot reader: what is read is gone. */
  class Stream {
    var rest: Text
    var closed: bool

    constructor (content: Text)
      ensures rest == content && !closed
    {
      rest, closed := content, false;
    }

    method ReadUpTo(n: nat) returns (s: Text)
      modifies this`rest
      ensures s == Take(old(rest), n) && rest == Drop(old(rest), n)
    {
      s, rest := Take(rest, n), Drop(rest, n);
    }

    method ReadAll() returns (s: Text)
      modifies this`rest
      ensures s == old(rest) && rest == []
    {
      s, rest := rest, [];
    }

    method Close()
      modifies this`closed
      ensures closed
    {
      closed := true;
    }
  }
}
