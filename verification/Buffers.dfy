// Text written through an advancing pointer.
module Buffers {

  // s with the cells from p on overwritten by u.
  ghost function Over(s: string, p: nat, u: string): string
    requires p + |u| <= |s|
  {
    s[..p] + u + s[p + |u|..]
  }

  lemma OverNothing(s: string, p: nat)
    requires p <= |s|
    ensures Over(s, p, "") == s
  {
  }

  lemma OverPut(s: string, p: nat, u: string, c: char)
    requires p + |u| < |s|
    ensures Over(s, p, u)[p + |u| := c] == Over(s, p, u + [c])
  {
  }

  lemma OverMore(s: string, p: nat, u: string, v: string)
    requires p + |u| + |v| <= |s|
    ensures Over(Over(s, p, u), p + |u|, v) == Over(s, p, u + v)
  {
  }

  lemma OverSlice(s: string, p: nat, u: string)
    requires p + |u| <= |s|
    ensures Over(s, p, u)[p..p + |u|] == u
    ensures Over(s, p, u)[..p] == s[..p] && Over(s, p, u)[p + |u|..] == s[p + |u|..]
  {
  }

  lemma OverBeyond(s: string, p: nat, u: string, e: nat)
    requires p + |u| <= e <= |s|
    ensures |Over(s, p, u)| == |s| && Over(s, p, u)[e..] == s[e..] && Over(s, p, u)[..p] == s[..p]
  {
  }

  lemma OverStart(s: string, p: nat, u: string)
    requires p + |u| <= |s|
    ensures Over(s, p, u)[..p + |u|] == s[..p] + u
  {
  }

  // *buf++ = c
  method Emit(buf: array<char>, p: nat, c: char, ghost s: string, ghost at: nat, ghost u: string)
    returns (p': nat, ghost u': string)
    requires p < buf.Length == |s| && p == at + |u| && buf[..] == Over(s, at, u)
    modifies buf
    ensures u' == u + [c] && p' == at + |u'| && buf[..] == Over(s, at, u')
  {
    buf[p] := c;
    p' := p + 1;
    u' := u + [c];
    OverPut(s, at, u, c);
  }
}
