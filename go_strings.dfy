/** The pieces of Go's `strings` package and string-to-bytes conversion that
    `decodeHexPacket` and `RunE` rely on. A Go string is a byte sequence holding
    UTF-8 text; here a string is a sequence of Unicode scalar values and
    `Bytes` is its UTF-8 encoding, so `len(s)` in Go is `|Bytes(s)|`. */
module GoStrings {
  import opened GoBase

  /** `unicode.IsSpace`, the test `strings.TrimSpace` applies: the characters
      with Unicode's White_Space property. */
  predicate IsSpace(c: char) {
    || '\t' <= c <= '\r'             // \t \n \v \f \r
    || c == ' '
    || c == '\U{0085}' || c == '\U{00A0}' || c == '\U{1680}'
    || '\U{2000}' <= c <= '\U{200A}'
    || c == '\U{2028}' || c == '\U{2029}' || c == '\U{202F}' || c == '\U{205F}'
    || c == '\U{3000}'
  }

  predicate AllSpace(s: string) {
    forall i :: 0 <= i < |s| ==> IsSpace(s[i])
  }

  /** Drops leading white space (`TrimLeftSplit` states what is left). */
  function TrimLeftSpace(s: string): string
    decreases |s|
  {
    if |s| > 0 && IsSpace(s[0]) then TrimLeftSpace(s[1..]) else s
  }

  /** Drops trailing white space (`TrimRightSplit` states what is left). */
  function TrimRightSpace(s: string): string
    decreases |s|
  {
    if |s| > 0 && IsSpace(s[|s| - 1]) then TrimRightSpace(s[..|s| - 1]) else s
  }

  /** `strings.TrimSpace`: leading and trailing white space removed
      (`TrimSpaceSplit` and `TrimSpaceBlank` state what it returns). */
  function TrimSpace(s: string): string {
    TrimRightSpace(TrimLeftSpace(s))
  }

  /** The left trim drops a run of white space and stops at a non-space character. */
  lemma {:induction false} TrimLeftSplit(s: string) returns (a: string)
    ensures AllSpace(a) && s == a + TrimLeftSpace(s)
    ensures TrimLeftSpace(s) == [] || !IsSpace(TrimLeftSpace(s)[0])
    decreases |s|
  {
    if |s| > 0 && IsSpace(s[0]) {
      var t := TrimLeftSpace(s);
      var a' := TrimLeftSplit(s[1..]);
      assert t == TrimLeftSpace(s[1..]);
      a := [s[0]] + a';
      AllSpaceAppend([s[0]], a');
      calc {
        s;
        [s[0]] + s[1..];
        [s[0]] + (a' + t);
        a + t;
      }
    } else {
      a := [];
      assert s == [] + s;
    }
  }

  /** The right trim drops a run of white space and stops at a non-space character. */
  lemma {:induction false} TrimRightSplit(s: string) returns (b: string)
    ensures AllSpace(b) && s == TrimRightSpace(s) + b
    ensures TrimRightSpace(s) == [] || !IsSpace(TrimRightSpace(s)[|TrimRightSpace(s)| - 1])
    decreases |s|
  {
    if |s| > 0 && IsSpace(s[|s| - 1]) {
      var m := TrimRightSpace(s);
      var b' := TrimRightSplit(s[..|s| - 1]);
      assert m == TrimRightSpace(s[..|s| - 1]);
      b := b' + [s[|s| - 1]];
      AllSpaceAppend(b', [s[|s| - 1]]);
      calc {
        s;
        s[..|s| - 1] + [s[|s| - 1]];
        (m + b') + [s[|s| - 1]];
        m + b;
      }
    } else {
      b := [];
      assert s == s + [];
    }
  }

  /** Any text is its trimmed core with white space on either side, and the
      core neither starts nor ends with white space. */
  lemma TrimSpaceSplit(s: string) returns (a: string, b: string)
    ensures AllSpace(a) && AllSpace(b)
    ensures s == a + (TrimSpace(s) + b)
    ensures TrimSpace(s) == [] || (!IsSpace(TrimSpace(s)[0]) && !IsSpace(TrimSpace(s)[|TrimSpace(s)| - 1]))
  {
    a := TrimLeftSplit(s);
    var l := TrimLeftSpace(s);
    b := TrimRightSplit(l);
    var m := TrimRightSpace(l);
    assert m == [] || m[0] == l[0];
  }

  /** Trimming leaves nothing exactly when the text is all white space. */
  lemma TrimSpaceBlank(s: string)
    ensures TrimSpace(s) == [] <==> AllSpace(s)
  {
    var a, b := TrimSpaceSplit(s);
    var m := TrimSpace(s);
    if m == [] {
      assert s == a + b;
      AllSpaceAppend(a, b);
    } else {
      assert s[|a|] == m[0];
    }
  }

  /** Leading white space in front of a string that does not start with white space is exactly what the left trim drops. */
  lemma {:induction false} TrimLeftSkips(w: string, t: string)
    requires AllSpace(w)
    requires t == [] || !IsSpace(t[0])
    ensures TrimLeftSpace(w + t) == t
    decreases |w|
  {
    if w == [] {
      assert w + t == t;
    } else {
      assert (w + t)[0] == w[0];
      assert (w + t)[1..] == w[1..] + t;
      TrimLeftSkips(w[1..], t);
    }
  }

  /** Trailing white space behind a string that does not end with white space is exactly what the right trim drops. */
  lemma {:induction false} TrimRightSkips(t: string, w: string)
    requires AllSpace(w)
    requires t == [] || !IsSpace(t[|t| - 1])
    ensures TrimRightSpace(t + w) == t
    decreases |w|
  {
    if w == [] {
      assert t + w == t;
    } else {
      assert (t + w)[|t + w| - 1] == w[|w| - 1];
      assert (t + w)[..|t + w| - 1] == t + w[..|w| - 1];
      TrimRightSkips(t, w[..|w| - 1]);
    }
  }

  /** Whatever white space surrounds a core whose two ends are not white space,
      `TrimSpace` returns exactly that core. */
  lemma TrimSpaceOf(w1: string, m: string, w2: string)
    requires AllSpace(w1) && AllSpace(w2)
    requires m == [] || (!IsSpace(m[0]) && !IsSpace(m[|m| - 1]))
    ensures TrimSpace(w1 + m + w2) == m
  {
    if m == [] {
      assert w1 + m + w2 == (w1 + w2) + m;
      AllSpaceAppend(w1, w2);
      TrimLeftSkips(w1 + w2, m);
    } else {
      assert w1 + m + w2 == w1 + (m + w2);
      assert (m + w2)[0] == m[0];
      TrimLeftSkips(w1, m + w2);
      TrimRightSkips(m, w2);
    }
  }

  /** A string whose ends are not white space is its own trimmed form. */
  lemma TrimSpaceNoop(s: string)
    requires s == [] || (!IsSpace(s[0]) && !IsSpace(s[|s| - 1]))
    ensures TrimSpace(s) == s
  {
    assert [] + s + [] == s;
    TrimSpaceOf([], s, []);
  }

  /** Text that starts and ends without white space, put in front of text that
      does not start with white space, survives trimming. */
  lemma TrimSpacePrepend(p: string, s: string)
    requires p != [] && !IsSpace(p[0]) && !IsSpace(p[|p| - 1])
    requires s == [] || !IsSpace(s[0])
    ensures TrimSpace(p + s) == p + TrimSpace(s)
  {
    assert (p + s)[0] == p[0];
    assert TrimLeftSpace(p + s) == p + s;
    assert TrimLeftSpace(s) == s;
    var b := TrimRightSplit(s);
    var m := TrimRightSpace(s);
    assert p + s == (p + m) + b;
    assert (p + m)[|p + m| - 1] == if m == [] then p[|p| - 1] else m[|m| - 1];
    TrimRightSkips(p + m, b);
  }

  lemma AllSpaceAppend(a: string, b: string)
    requires AllSpace(a) && AllSpace(b)
    ensures AllSpace(a + b)
  {
    forall i | 0 <= i < |a + b| ensures IsSpace((a + b)[i]) {
      if i < |a| { assert (a + b)[i] == a[i]; } else { assert (a + b)[i] == b[i - |a|]; }
    }
  }

  lemma Regroup(w1: string, a: string, m: string, b: string, w2: string)
    ensures w1 + (a + (m + b)) + w2 == (w1 + a) + m + (b + w2)
  {
  }

  /** White space added around a string does not change what `TrimSpace` returns. */
  lemma TrimSpaceIgnoresSurroundingSpace(w1: string, s: string, w2: string)
    requires AllSpace(w1) && AllSpace(w2)
    ensures TrimSpace(w1 + s + w2) == TrimSpace(s)
  {
    var a, b := TrimSpaceSplit(s);
    var m := TrimSpace(s);
    Regroup(w1, a, m, b, w2);
    AllSpaceAppend(w1, a);
    AllSpaceAppend(b, w2);
    TrimSpaceOf(w1 + a, m, b + w2);
  }

  predicate HasPrefix(s: string, p: string) {
    |p| <= |s| && s[..|p|] == p
  }

  /** `strings.TrimPrefix`: `s` without one leading `p`, or `s` itself when it does not start with `p`. */
  function TrimPrefix(s: string, p: string): string {
    if HasPrefix(s, p) then s[|p|..] else s
  }

  /** `strings.ReplaceAll(s, string(c), "")`: every occurrence of `c` deleted,
      every other character kept as often as it occurred. */
  function RemoveAll(s: string, c: char): (r: string)
    ensures c !in r
    ensures |r| <= |s|
    decreases |s|
  {
    if s == [] then []
    else if s[0] == c then RemoveAll(s[1..], c) else [s[0]] + RemoveAll(s[1..], c)
  }

  /** Only `c` is deleted: every other character is kept as often as it occurred. */
  lemma {:induction false} RemoveAllKeepsOthers(s: string, c: char, x: char)
    requires x != c
    ensures multiset(RemoveAll(s, c))[x] == multiset(s)[x]
    decreases |s|
  {
    if s != [] {
      assert s == [s[0]] + s[1..];
      RemoveAllKeepsOthers(s[1..], c, x);
    }
  }

  /** Deletion works piecewise and keeps the order of what remains. */
  lemma {:induction false} RemoveAllAppend(a: string, b: string, c: char)
    ensures RemoveAll(a + b, c) == RemoveAll(a, c) + RemoveAll(b, c)
    decreases |a|
  {
    if a == [] {
      assert a + b == b;
    } else {
      assert (a + b)[1..] == a[1..] + b;
      RemoveAllAppend(a[1..], b, c);
    }
  }

  /** A string without `c` is left as it is. */
  lemma {:induction false} RemoveAllAbsent(s: string, c: char)
    requires c !in s
    ensures RemoveAll(s, c) == s
    decreases |s|
  {
    if s != [] {
      assert c !in s[1..] by { assert forall x :: x in s[1..] ==> x in s; }
      RemoveAllAbsent(s[1..], c);
    }
  }

  predicate IsAscii(s: string) {
    forall i :: 0 <= i < |s| ==> s[i] < '\U{80}'
  }

  predicate IsAsciiBytes(bs: seq<byte>) {
    forall i :: 0 <= i < |bs| ==> bs[i] < 0x80
  }

  lemma IsAsciiBytesAppend(a: seq<byte>, b: seq<byte>)
    ensures IsAsciiBytes(a + b) <==> IsAsciiBytes(a) && IsAsciiBytes(b)
  {
    if IsAsciiBytes(a + b) {
      forall i | 0 <= i < |a| ensures a[i] < 0x80 { assert a[i] == (a + b)[i]; }
      forall i | 0 <= i < |b| ensures b[i] < 0x80 { assert b[i] == (a + b)[|a| + i]; }
    }
  }

  /** The UTF-8 encoding of one character, as Go lays out a rune in a string. */
  function RuneBytes(c: char): (r: seq<byte>)
    ensures 1 <= |r| <= 4
    ensures |r| == 1 <==> c < '\U{80}'
    ensures |r| == 1 ==> r[0] as int == c as int
    ensures |r| > 1 ==> forall i :: 0 <= i < |r| ==> r[i] >= 0x80
  {
    var n := c as int;
    if n < 0x80 then [n as byte]
    else if n < 0x800 then [(0xC0 + n / 0x40) as byte, (0x80 + n % 0x40) as byte]
    else if n < 0x1_0000 then
      [(0xE0 + n / 0x1000) as byte, (0x80 + n / 0x40 % 0x40) as byte, (0x80 + n % 0x40) as byte]
    else
      [(0xF0 + n / 0x4_0000) as byte, (0x80 + n / 0x1000 % 0x40) as byte,
       (0x80 + n / 0x40 % 0x40) as byte, (0x80 + n % 0x40) as byte]
  }

  /** `[]byte(s)`: the UTF-8 bytes of `s`. `BytesLength` and `BytesOfAscii` state what they are. */
  function Bytes(s: string): seq<byte>
    decreases |s|
  {
    if s == [] then [] else RuneBytes(s[0]) + Bytes(s[1..])
  }

  lemma AsciiSplit(s: string)
    requires s != []
    ensures IsAscii(s) <==> s[0] < '\U{80}' && IsAscii(s[1..])
  {
    assert forall i :: 1 <= i < |s| ==> s[i] == s[1..][i - 1];
  }

  /** `len(s)` counts bytes: never fewer than the characters, and exactly as
      many when the text is ASCII. */
  lemma {:induction false} BytesLength(s: string)
    ensures |Bytes(s)| >= |s|
    ensures |Bytes(s)| == |s| <==> IsAscii(s)
    decreases |s|
  {
    if s != [] {
      AsciiSplit(s);
      BytesLength(s[1..]);
    }
  }

  /** ASCII text is exactly the text whose bytes are all below 0x80, and its
      bytes are its character codes; any other character contributes only
      bytes of 0x80 and above. */
  lemma {:induction false} BytesOfAscii(s: string)
    ensures IsAscii(s) <==> IsAsciiBytes(Bytes(s))
    ensures IsAscii(s) ==> |Bytes(s)| == |s| && forall i :: 0 <= i < |s| ==> Bytes(s)[i] as int == s[i] as int
    decreases |s|
  {
    if s != [] {
      var head, rest := RuneBytes(s[0]), Bytes(s[1..]);
      AsciiSplit(s);
      BytesOfAscii(s[1..]);
      IsAsciiBytesAppend(head, rest);
      assert IsAsciiBytes(head) <==> s[0] < '\U{80}' by {
        assert head[0] < 0x80 <==> s[0] < '\U{80}';
      }
      if IsAscii(s) {
        assert forall i :: 1 <= i < |s| ==> (head + rest)[i] == rest[i - 1] && s[i] == s[1..][i - 1];
      }
    }
  }

  /** The bytes of a concatenation are the concatenated bytes. */
  lemma {:induction false} BytesAppend(a: string, b: string)
    ensures Bytes(a + b) == Bytes(a) + Bytes(b)
    decreases |a|
  {
    if a == [] {
      assert a + b == b;
    } else {
      assert (a + b)[0] == a[0];
      assert (a + b)[1..] == a[1..] + b;
      BytesAppend(a[1..], b);
    }
  }
}
