/** Text handling on ASCII: trimming, lower case, hexadecimal. */
module Text {
  import opened Options
  import opened ByteStrings

  predicate IsSpace(c: char) {
    c == ' ' || '\t' <= c <= '\r'
  }

  function TrimLeft(s: string): (t: string)
    ensures |t| <= |s| && (t != "" ==> !IsSpace(t[0]))
  {
    if s != "" && IsSpace(s[0]) then TrimLeft(s[1..]) else s
  }

  function TrimRight(s: string): (t: string)
    ensures t <= s && (t != "" ==> !IsSpace(t[|t| - 1]))
  {
    if s != "" && IsSpace(s[|s| - 1]) then TrimRight(s[..|s| - 1]) else s
  }

  function Trim(s: string): (t: string)
    ensures t != "" ==> !IsSpace(t[0]) && !IsSpace(t[|t| - 1])
  {
    TrimRight(TrimLeft(s))
  }

  lemma {:induction false} TrimClean(s: string)
    requires s != "" ==> !IsSpace(s[0]) && !IsSpace(s[|s| - 1])
    ensures Trim(s) == s
  {}

  predicate AllSpace(s: string) {
    forall i :: 0 <= i < |s| ==> IsSpace(s[i])
  }

  lemma {:induction false} TrimLeftDrops(s: string)
    ensures AllSpace(s[..|s| - |TrimLeft(s)|]) && s == s[..|s| - |TrimLeft(s)|] + TrimLeft(s)
  {
    if s != "" && IsSpace(s[0]) {
      TrimLeftDrops(s[1..]);
      var k := |s[1..]| - |TrimLeft(s)|;
      assert s[..k + 1] == [s[0]] + s[1..][..k];
    }
  }

  lemma {:induction false} TrimRightDrops(s: string)
    ensures AllSpace(s[|TrimRight(s)|..]) && s == TrimRight(s) + s[|TrimRight(s)|..]
  {
    if s != "" && IsSpace(s[|s| - 1]) {
      var shorter := s[..|s| - 1];
      TrimRightDrops(shorter);
      assert s[|TrimRight(s)|..] == shorter[|TrimRight(s)|..] + [s[|s| - 1]];
    }
  }

  /** Trimming takes white space off both ends and nothing else. */
  lemma TrimParts(s: string) returns (left: string, right: string)
    ensures AllSpace(left) && AllSpace(right) && s == left + Trim(s) + right
  {
    hide AllSpace, TrimLeft, TrimRight;
    var rest := TrimLeft(s);
    TrimLeftDrops(s);
    TrimRightDrops(rest);
    left, right := s[..|s| - |rest|], rest[|TrimRight(rest)|..];
  }

  lemma {:induction false} TrimLeftAll(left: string, rest: string)
    requires AllSpace(left) && (rest == "" || !IsSpace(rest[0]))
    ensures TrimLeft(left + rest) == rest
  {
    if left == "" {
      assert left + rest == rest;
    } else {
      assert (left + rest)[1..] == left[1..] + rest;
      TrimLeftAll(left[1..], rest);
    }
  }

  lemma {:induction false} TrimRightAll(rest: string, right: string)
    requires AllSpace(right) && (rest == "" || !IsSpace(rest[|rest| - 1]))
    ensures TrimRight(rest + right) == rest
  {
    if right == "" {
      assert rest + right == rest;
    } else {
      assert (rest + right)[..|rest + right| - 1] == rest + right[..|right| - 1];
      TrimRightAll(rest, right[..|right| - 1]);
    }
  }

  lemma TrimAround(left: string, middle: string, right: string)
    requires AllSpace(left) && AllSpace(right)
    requires middle != "" ==> !IsSpace(middle[0]) && !IsSpace(middle[|middle| - 1])
    ensures Trim(left + middle + right) == middle
  {
    if middle == "" {
      assert left + middle + right == (left + right) + "";
      TrimLeftAll(left + right, "");
    } else {
      assert left + middle + right == left + (middle + right);
      TrimLeftAll(left, middle + right);
      TrimRightAll(middle, right);
    }
  }

  function LowerChar(c: char): char {
    if 'A' <= c <= 'Z' then c + 32 as char else c
  }

  function Lower(s: string): (t: string)
    ensures |t| == |s| && forall i :: 0 <= i < |s| ==> t[i] == LowerChar(s[i])
  {
    seq(|s|, i requires 0 <= i < |s| => LowerChar(s[i]))
  }

  lemma LowerAppend(a: string, b: string)
    ensures Lower(a + b) == Lower(a) + Lower(b)
  {}

  lemma LowerIdempotent(s: string)
    ensures Lower(Lower(s)) == Lower(s)
  {}

  // ----- hexadecimal -----

  function NibbleOf(c: char): (n: Option<nat>)
    ensures n.Some? ==> n.value < 16
  {
    if '0' <= c <= '9' then Some((c - '0') as nat)
    else if 'a' <= c <= 'f' then Some((c - 'a') as nat + 10)
    else if 'A' <= c <= 'F' then Some((c - 'A') as nat + 10)
    else None
  }

  function NibbleChar(n: nat): (c: char)
    requires n < 16
    ensures NibbleOf(c) == Some(n) && !IsSpace(c) && LowerChar(c) == c
  {
    if n < 10 then '0' + n as char else 'a' + (n - 10) as char
  }

  function ToHex(b: seq<Byte>): (s: string)
    ensures |s| == 2 * |b|
  {
    if b == [] then "" else [NibbleChar(b[0] / 16), NibbleChar(b[0] % 16)] + ToHex(b[1..])
  }

  /** Pairs of hex digits, with white space allowed between pairs. */
  function FromHex(s: string): Option<seq<Byte>> {
    if s == "" then Some([])
    else if IsSpace(s[0]) then FromHex(s[1..])
    else if |s| == 1 || NibbleOf(s[0]).None? || NibbleOf(s[1]).None? then None
    else
      match FromHex(s[2..])
      case None => None
      case Some(rest) => Some([NibbleOf(s[0]).value * 16 + NibbleOf(s[1]).value] + rest)
  }

  lemma {:induction false} HexRoundTrip(b: seq<Byte>)
    ensures FromHex(ToHex(b)) == Some(b)
  {
    if b != [] {
      var s := ToHex(b);
      assert s[2..] == ToHex(b[1..]);
      HexRoundTrip(b[1..]);
      assert b == [b[0]] + b[1..];
    }
  }

  lemma ToHexInjective(a: seq<Byte>, b: seq<Byte>)
    requires ToHex(a) == ToHex(b)
    ensures a == b
  {
    HexRoundTrip(a);
    HexRoundTrip(b);
  }

  lemma {:induction false} HexIsCleanLower(b: seq<Byte>)
    ensures Lower(ToHex(b)) == ToHex(b)
    ensures forall i :: 0 <= i < |ToHex(b)| ==> NibbleOf(ToHex(b)[i]).Some? && !IsSpace(ToHex(b)[i])
  {
    if b != [] {
      HexIsCleanLower(b[1..]);
      assert ToHex(b)[2..] == ToHex(b[1..]);
      forall i | 0 <= i < |ToHex(b)|
        ensures LowerChar(ToHex(b)[i]) == ToHex(b)[i] && NibbleOf(ToHex(b)[i]).Some? && !IsSpace(ToHex(b)[i])
      {
        if i >= 2 {
          assert ToHex(b)[i] == ToHex(b[1..])[i - 2];
          assert Lower(ToHex(b[1..]))[i - 2] == LowerChar(ToHex(b[1..])[i - 2]);
        }
      }
    }
  }
}
