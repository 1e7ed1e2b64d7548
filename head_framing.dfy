/** The end of an HTTP/1.1 message head: the empty line that follows the
    header section (section 2.1 of RFC 9112), i.e. the first CR LF CR LF. */
module HeadFraming {
  import opened Prelude

  /** The first `k` bytes of `s` end with CR LF CR LF. */
  predicate EndsHead(s: seq<byte>, k: nat)
    requires k <= |s|
  {
    k >= 4 && s[k - 4] == CR && s[k - 3] == LF && s[k - 2] == CR && s[k - 1] == LF
  }

  /** No prefix of `s`, `s` included, ends with CR LF CR LF. */
  predicate NoHeadEnd(s: seq<byte>)
  {
    forall k :: 0 <= k <= |s| ==> !EndsHead(s, k)
  }

  /** `head` is the prefix of `stream` through its first CR LF CR LF. */
  predicate IsHeadOf(stream: seq<byte>, head: seq<byte>)
  {
    && |head| <= |stream| && head == stream[..|head|]
    && EndsHead(head, |head|)
    && NoHeadEnd(head[..|head| - 1])
  }

  /** The head of a stream, if any, is unique. */
  lemma HeadUnique(stream: seq<byte>, h1: seq<byte>, h2: seq<byte>)
    requires IsHeadOf(stream, h1) && IsHeadOf(stream, h2)
    ensures h1 == h2
  {
    assert |h1| < |h2| ==> h1 == h2[..|h1|] && EndsHead(h2[..|h2| - 1], |h1|);
    assert |h2| < |h1| ==> h2 == h1[..|h2|] && EndsHead(h1[..|h1| - 1], |h2|);
  }

  /** Appending a piece whose only LF, if any, is its last byte can end a head
      only at the very end of the piece. */
  lemma PieceNoHeadEnd(a: seq<byte>, p: seq<byte>, m: nat)
    requires NoHeadEnd(a)
    requires forall j :: 0 <= j < |p| - 1 ==> p[j] != LF
    requires |a| <= m <= |a| + |p|
    requires m == |a| + |p| ==> !EndsHead(a + p, m)
    ensures NoHeadEnd((a + p)[..m])
  {
    var s := (a + p)[..m];
    forall k | 0 <= k <= m ensures !EndsHead(s, k) {
      if k <= |a| {
        assert EndsHead(s, k) == EndsHead(a, k);
      } else if k < |a| + |p| {
        assert s[k - 1] == p[k - 1 - |a|];
      } else {
        assert s == a + p;
      }
    }
  }
}
