/** The parsing step of `get_kbag` in autodecrypt/decrypt_img.py: the key
    bag is `out.split()[0]`, the first whitespace-separated token of what
    `img4 -i <file> -b` printed. The tool's output is a parameter; the token
    stays a byte string. */
module Kbag {
  import opened Wrappers
  import opened Tools
  import ImageHeader

  type byte = ImageHeader.byte

  /** What `out.split()[0]` raises when there is no token. */
  datatype KbagError = IndexError

  /** The bytes Python's `bytes.split()` separates on: space, tab, line feed,
      vertical tab, form feed and carriage return. */
  predicate IsSpace(b: byte) {
    b == 0x20 || (0x09 <= b <= 0x0d)
  }

  /** The whitespace bytes as Python's documentation of `bytes.isspace`
      lists them: b' \t\n\r\x0b\f'. */
  const AsciiWhitespace: seq<byte> := [0x20, 0x09, 0x0a, 0x0d, 0x0b, 0x0c]

  /** `IsSpace` separates on exactly the bytes of that listing. */
  lemma IsSpaceIsAsciiWhitespace(b: byte)
    ensures IsSpace(b) <==> b in AsciiWhitespace
  {
  }

  predicate NoSpace(t: seq<byte>) {
    forall k :: 0 <= k < |t| ==> !IsSpace(t[k])
  }

  predicate AllSpace(s: seq<byte>) {
    forall k :: 0 <= k < |s| ==> IsSpace(s[k])
  }

  /** The longest whitespace-free prefix of `s`. */
  function LeadingRun(s: seq<byte>): (t: seq<byte>)
    ensures t <= s
    ensures NoSpace(t)
    ensures |t| == |s| || IsSpace(s[|t|])
  {
    if |s| == 0 || IsSpace(s[0]) then [] else [s[0]] + LeadingRun(s[1..])
  }

  /** Python's `bytes.split()` without arguments: the maximal runs of
      non-whitespace bytes, in order; leading, trailing and repeated
      whitespace produce no empty tokens. */
  function SplitWhitespace(s: seq<byte>): (tokens: seq<seq<byte>>)
    ensures forall k :: 0 <= k < |tokens| ==> |tokens[k]| > 0 && NoSpace(tokens[k])
    decreases |s|
  {
    if |s| == 0 then []
    else if IsSpace(s[0]) then SplitWhitespace(s[1..])
    else
      var t := LeadingRun(s);
      [t] + SplitWhitespace(s[|t|..])
  }

  /** `t` is the token that starts at index `a` of `s`: only whitespace
      before it, it is non-empty and whitespace-free, and it ends at the end
      of `s` or at a whitespace byte. */
  ghost predicate FirstTokenAt(s: seq<byte>, t: seq<byte>, a: nat) {
    && a + |t| <= |s|
    && AllSpace(s[..a])
    && s[a..a + |t|] == t
    && |t| > 0
    && NoSpace(t)
    && (a + |t| == |s| || IsSpace(s[a + |t|]))
  }

  ghost predicate IsFirstToken(s: seq<byte>, t: seq<byte>) {
    exists a: nat :: FirstTokenAt(s, t, a)
  }

  /** `s.split()` is empty exactly when `s` is all whitespace. */
  lemma {:induction false} SplitEmptyIffBlank(s: seq<byte>)
    ensures |SplitWhitespace(s)| == 0 <==> AllSpace(s)
    decreases |s|
  {
    if |s| > 0 && IsSpace(s[0]) {
      SplitEmptyIffBlank(s[1..]);
      assert AllSpace(s) <==> AllSpace(s[1..]) by {
        if AllSpace(s[1..]) {
          forall k | 0 <= k < |s|
            ensures IsSpace(s[k])
          {
            if k > 0 {
              assert s[k] == s[1..][k - 1];
            }
          }
        }
      }
    }
  }

  /** A whitespace byte in front moves the first token one place on. */
  lemma FirstTokenAfterSpace(s: seq<byte>, t: seq<byte>, a: nat)
    requires |s| > 0 && IsSpace(s[0])
    requires FirstTokenAt(s[1..], t, a)
    ensures FirstTokenAt(s, t, a + 1)
  {
    assert s[..a + 1] == [s[0]] + s[1..][..a];
    assert s[a + 1..a + 1 + |t|] == s[1..][a..a + |t|];
  }

  /** The first element of `s.split()` is the first token of `s`. */
  lemma {:induction false} SplitHeadIsFirstToken(s: seq<byte>)
    requires |SplitWhitespace(s)| > 0
    ensures IsFirstToken(s, SplitWhitespace(s)[0])
    decreases |s|
  {
    var t := SplitWhitespace(s)[0];
    if IsSpace(s[0]) {
      assert SplitWhitespace(s) == SplitWhitespace(s[1..]);
      SplitHeadIsFirstToken(s[1..]);
      var a: nat :| FirstTokenAt(s[1..], t, a);
      FirstTokenAfterSpace(s, t, a);
    } else {
      assert t == LeadingRun(s);
      assert s[..0] == [];
      assert FirstTokenAt(s, t, 0);
    }
  }

  /** The facts about `s` that a token at `a` fixes, stated byte by byte. */
  lemma FirstTokenBytes(s: seq<byte>, t: seq<byte>, a: nat)
    requires FirstTokenAt(s, t, a)
    ensures forall k :: 0 <= k < a ==> IsSpace(s[k])
    ensures forall k :: 0 <= k < |t| ==> s[a + k] == t[k] && !IsSpace(s[a + k])
    ensures forall j :: a <= j < a + |t| ==> !IsSpace(s[j])
  {
    forall k | 0 <= k < a
      ensures IsSpace(s[k])
    {
      assert s[..a][k] == s[k];
    }
    forall k | 0 <= k < |t|
      ensures s[a + k] == t[k]
    {
      assert s[a..a + |t|][k] == s[a + k];
    }
  }

  /** A string has at most one first token. */
  lemma FirstTokenUnique(s: seq<byte>, t1: seq<byte>, t2: seq<byte>)
    requires IsFirstToken(s, t1) && IsFirstToken(s, t2)
    ensures t1 == t2
  {
    var a1: nat :| FirstTokenAt(s, t1, a1);
    var a2: nat :| FirstTokenAt(s, t2, a2);
    FirstTokenBytes(s, t1, a1);
    FirstTokenBytes(s, t2, a2);
    assert !IsSpace(s[a1 + 0]) && !IsSpace(s[a2 + 0]);
    assert a1 == a2;
    assert |t1| == |t2|;
    assert t1 == s[a1..a1 + |t1|] == t2;
  }

  /** `get_kbag` after the tool has run: `out.split()[0]`, or the
      `IndexError` raised when the output holds no token. */
  function FirstToken(out: seq<byte>): (r: Result<seq<byte>, KbagError>)
    ensures r.Failure? <==> AllSpace(out)
    ensures r.Success? ==> IsFirstToken(out, r.value)
  {
    var tokens := SplitWhitespace(out);
    SplitEmptyIffBlank(out);
    if |tokens| == 0 then Failure(IndexError)
    else
      SplitHeadIsFirstToken(out);
      Success(tokens[0])
  }

  /** The argument vector `get_kbag` runs to obtain the key bag. */
  function KbagArgv(firmwareImage: string): (argv: seq<string>)
    ensures ParseArgv(argv) == Some(Img4KeyBag(firmwareImage))
  {
    ["img4", "-i", firmwareImage, "-b"]
  }

  // ----- The tokens keep every non-whitespace byte -----

  /** The bytes of `s` that are not whitespace, in order. */
  function RemoveSpace(s: seq<byte>): seq<byte> {
    if |s| == 0 then []
    else if IsSpace(s[0]) then RemoveSpace(s[1..])
    else [s[0]] + RemoveSpace(s[1..])
  }

  function Concat(parts: seq<seq<byte>>): seq<byte> {
    if |parts| == 0 then [] else parts[0] + Concat(parts[1..])
  }

  lemma {:induction false} RemoveSpaceAfterRun(s: seq<byte>, n: nat)
    requires n <= |s| && NoSpace(s[..n])
    ensures RemoveSpace(s) == s[..n] + RemoveSpace(s[n..])
    decreases n
  {
    if n > 0 {
      assert !IsSpace(s[..n][0]);
      assert s[1..][..n - 1] == s[..n][1..];
      RemoveSpaceAfterRun(s[1..], n - 1);
      assert s[1..][n - 1..] == s[n..];
      assert s[..n] == [s[0]] + s[1..][..n - 1];
    }
  }

  /** Splitting loses and invents nothing: the tokens, put back together,
      are exactly the non-whitespace bytes of the input. */
  lemma {:induction false} SplitKeepsContent(s: seq<byte>)
    ensures Concat(SplitWhitespace(s)) == RemoveSpace(s)
    decreases |s|
  {
    if |s| > 0 {
      if IsSpace(s[0]) {
        SplitKeepsContent(s[1..]);
      } else {
        var t := LeadingRun(s);
        SplitKeepsContent(s[|t|..]);
        assert s[..|t|] == t;
        RemoveSpaceAfterRun(s, |t|);
        var tokens := [t] + SplitWhitespace(s[|t|..]);
        assert tokens[1..] == SplitWhitespace(s[|t|..]);
      }
    }
  }

  /** Output that opens with a whitespace-free token followed by whitespace
      (or nothing) yields that token, whatever comes after. */
  lemma FirstTokenOfLeading(t: seq<byte>, rest: seq<byte>)
    requires |t| > 0 && NoSpace(t)
    requires |rest| > 0 ==> IsSpace(rest[0])
    ensures FirstToken(t + rest) == Success(t)
  {
    var out := t + rest;
    assert out[..0] == [];
    assert out[0..|t|] == t;
    assert FirstTokenAt(out, t, 0);
    assert !IsSpace(out[0]);
    FirstTokenUnique(out, t, FirstToken(out).value);
  }

  /** Output "a1b2c3d4 " followed by anything (such as "extra text") gives
      the key bag "a1b2c3d4". */
  lemma KbagExample(trailing: seq<byte>)
    ensures FirstToken([0x61, 0x31, 0x62, 0x32, 0x63, 0x33, 0x64, 0x34, 0x20] + trailing)
         == Success([0x61, 0x31, 0x62, 0x32, 0x63, 0x33, 0x64, 0x34])
  {
    var token: seq<byte> := [0x61, 0x31, 0x62, 0x32, 0x63, 0x33, 0x64, 0x34];
    var rest: seq<byte> := [0x20] + trailing;
    assert NoSpace(token);
    FirstTokenOfLeading(token, rest);
    assert token + rest == [0x61, 0x31, 0x62, 0x32, 0x63, 0x33, 0x64, 0x34, 0x20] + trailing;
  }
}
