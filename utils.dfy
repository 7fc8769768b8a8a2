/**
 * The string helpers of Utils.cpp that the request state machine relies on:
 * the log escaper escapeStr, isNumericStr, and the prefix/separator test of
 * is_path_parent. canonicalize_file_name is a filesystem call; here it is an
 * uninterpreted partial function passed in as `canon` (None = the call failed).
 */
module Utils {
  import opened Text

  type Canonicalizer = string -> Option<string>

  /** isprint in the C locale: the bytes 0x20 (space) through 0x7e ('~'). */
  predicate IsPrint(c: char) {
    ' ' <= c <= '~'
  }

  function HexDigit(d: nat): char
    requires d < 16
  {
    if d < 10 then ('0' as int + d) as char else ('a' as int + d - 10) as char
  }

  /**
   * What escapeStr writes in place of one character: printable characters
   * stay; '\r' and '\n' become "\r" and "\n"; any other byte becomes "\x"
   * and two lower-case hex digits of its value as an unsigned char.
   */
  function EscapeChar(c: char): (r: string)
    ensures IsPrint(c) ==> r == [c]
    ensures !IsPrint(c) ==> 2 <= |r| <= 4 && r[0] == '\\'
    ensures forall i :: 0 <= i < |r| ==> IsPrint(r[i])
  {
    if IsPrint(c) then [c]
    else if c == '\r' then "\\r"
    else if c == '\n' then "\\n"
    else
      var b := c as int % 256;
      "\\x" + [HexDigit(b / 16), HexDigit(b % 16)]
  }

  /** The escaped text before truncation: every character escaped on its own. */
  function Escaped(s: string): (r: string)
    ensures |s| <= |r| <= 4 * |s|
    ensures forall i :: 0 <= i < |r| ==> IsPrint(r[i])
  {
    if s == [] then [] else Escaped(s[..|s| - 1]) + EscapeChar(s[|s| - 1])
  }

  /** Escaping works character by character, so it distributes over concatenation. */
  lemma {:induction false} EscapedConcat(a: string, b: string)
    ensures Escaped(a + b) == Escaped(a) + Escaped(b)
  {
    if b != [] {
      var b', c := b[..|b| - 1], b[|b| - 1];
      assert (a + b)[..|a + b| - 1] == a + b';
      assert (a + b)[|a + b| - 1] == c;
      EscapedConcat(a, b');
      assert Escaped(b) == Escaped(b') + EscapeChar(c);
    } else {
      assert a + b == a;
    }
  }

  predicate AllPrint(s: string) {
    forall i :: 0 <= i < |s| ==> IsPrint(s[i])
  }

  /** A string of printable characters is its own escape, and only such a string is. */
  lemma {:induction false} EscapedIdentity(s: string)
    ensures Escaped(s) == s <==> AllPrint(s)
  {
    if s != [] {
      var s', c := s[..|s| - 1], s[|s| - 1];
      EscapedIdentity(s');
      assert s == s' + [c];
      assert AllPrint(s) <==> AllPrint(s') && IsPrint(c) by {
        if AllPrint(s) {
          forall i | 0 <= i < |s'| ensures IsPrint(s'[i]) { assert s'[i] == s[i]; }
        }
      }
      if IsPrint(c) {
        if Escaped(s) == s {
          assert Escaped(s') == Escaped(s)[..|s| - 1];
        }
      } else {
        assert |Escaped(s)| > |s|;
      }
    }
  }

  /**
   * One step of the in-place loop at the boundary between escaped and raw
   * text: the character there is the next raw one, and replacing it by its
   * escape (a printable one is its own escape) extends the escaped part by
   * one character of the input.
   */
  lemma EscapeStep(str: string, k: nat, msg: string)
    requires k < |str| && msg == Escaped(str[..k]) + str[k..]
    ensures var e := |Escaped(str[..k])|;
            e < |msg| && msg[e] == str[k] && e + 1 <= |Escaped(str[..k + 1])| &&
            Escaped(str[..k + 1]) + str[k + 1..] ==
              if IsPrint(str[k]) then msg else msg[..e] + EscapeChar(str[k]) + msg[e + 1..]
  {
    var e := Escaped(str[..k]);
    assert str[..k + 1][..k] == str[..k];
    assert msg[..|e|] == e;
    assert msg[|e| + 1..] == str[k + 1..];
    if IsPrint(str[k]) {
      assert msg == msg[..|e|] + [str[k]] + msg[|e| + 1..];
    }
  }

  /** Left of the boundary the loop meets only escaped, hence printable, text. */
  lemma InsideEscaped(str: string, k: nat, msg: string, i: nat)
    requires k <= |str| && msg == Escaped(str[..k]) + str[k..] && i < |Escaped(str[..k])|
    ensures IsPrint(msg[i])
  {
    assert msg[i] == Escaped(str[..k])[i];
  }

  /**
   * escapeStr: rewrites the message in place, replacing each non-printable
   * character by its escape; the index then steps through the inserted text,
   * which is printable and so left alone. A result longer than `maxBuf` is cut
   * to `maxBuf` characters followed by " ... ... ".
   */
  method EscapeStr(str: string, maxBuf: nat) returns (r: string)
    ensures |Escaped(str)| <= maxBuf ==> r == Escaped(str)
    ensures |Escaped(str)| > maxBuf ==> r == Escaped(str)[..maxBuf] + " ... ... "
  {
    var msg := str;
    var i := 0;
    ghost var k := 0;
    while i < |msg|
      invariant k <= |str|
      invariant msg == Escaped(str[..k]) + str[k..]
      invariant i <= |Escaped(str[..k])|
      decreases |str| - k, |Escaped(str[..k])| - i
    {
      var ch := msg[i];
      ghost var boundary := i == |Escaped(str[..k])|;
      if boundary {
        EscapeStep(str, k, msg);
      } else {
        InsideEscaped(str, k, msg, i);
      }
      if !IsPrint(ch) {
        msg := msg[..i] + EscapeChar(ch) + msg[i + 1..];
      }
      if boundary {
        k := k + 1;
      }
      i := i + 1;
    }
    assert str[..k] == str;
    if |msg| > maxBuf {
      r := msg[..maxBuf] + " ... ... ";
    } else {
      r := msg;
    }
  }

  /** isNumericStr: every character is a decimal digit (so the empty string is numeric). */
  method IsNumericStr(s: string) returns (r: bool)
    ensures r <==> AllDigits(s)
    ensures s == [] ==> r
  {
    var i := 0;
    while i < |s|
      invariant i <= |s|
      invariant forall j :: 0 <= j < i ==> IsDigit(s[j])
    {
      if !IsDigit(s[i]) {
        return false;
      }
      i := i + 1;
    }
    return true;
  }

  /**
   * is_path_parent: both paths must canonicalize; then the canonical child
   * must start with the canonical parent (strstr finds the parent at the
   * child's first character) and the character after that prefix must be the
   * end of the string or '/'.
   */
  predicate IsPathParent(canon: Canonicalizer, parent: string, child: string)
    // both paths canonicalize, and the child's canonical path starts with the parent's
    ensures IsPathParent(canon, parent, child) ==>
              canon(parent).Some? && canon(child).Some? && canon(parent).value <= canon(child).value
  {
    match canon(parent)
    case None => false
    case Some(p) =>
      match canon(child)
      case None => false
      case Some(c) => p <= c && (|c| == |p| || c[|p|] == '/')
  }

  /**
   * Both paths canonicalize, and the child is the parent itself or lies below
   * the parent followed by '/'.
   */
  lemma PathParentMeaning(canon: Canonicalizer, parent: string, child: string)
    ensures IsPathParent(canon, parent, child) <==>
              canon(parent).Some? && canon(child).Some? &&
              (canon(child).value == canon(parent).value ||
               canon(parent).value + "/" <= canon(child).value)
  {
    if canon(parent).Some? && canon(child).Some? {
      var p, c := canon(parent).value, canon(child).value;
      if p <= c && |c| > |p| && c[|p|] == '/' {
        assert (p + "/")[..|p|] == p;
        assert c[..|p| + 1] == p + "/";
      }
      if p + "/" <= c {
        assert c[..|p|] == (p + "/")[..|p|];
        assert c[|p|] == (p + "/")[|p|];
      }
    }
  }

  /** Every path that canonicalizes is its own parent. */
  lemma PathParentReflexive(canon: Canonicalizer, p: string)
    requires canon(p).Some?
    ensures IsPathParent(canon, p, p)
  {
  }

  /** A canonical child that only shares a textual prefix with the parent (/a/b and /a/bc) is rejected. */
  lemma PrefixSiblingRejected(canon: Canonicalizer, parent: string, child: string, rest: string)
    requires canon(parent).Some? && canon(child) == Some(canon(parent).value + rest)
    requires rest != [] && rest[0] != '/'
    ensures !IsPathParent(canon, parent, child)
  {
    var p := canon(parent).value;
    assert canon(child).value[|p|] == rest[0];
  }

  /** Two distinct entries of one directory are never each other's parent. */
  lemma {:induction false} SiblingsRejected(canon: Canonicalizer, a: string, b: string, dir: string, x: string, y: string)
    requires canon(a) == Some(dir + "/" + x) && canon(b) == Some(dir + "/" + y)
    requires x != y && '/' !in x && '/' !in y
    ensures !IsPathParent(canon, a, b)
  {
    var pa, pb := dir + "/" + x, dir + "/" + y;
    assert pa[|dir| + 1..] == x && pb[|dir| + 1..] == y;
    if |pb| >= |pa| + 1 && pb[..|pa|] == pa {
      assert pb[|pa|] == y[|x|];
      assert (pa + "/")[|pa|] == '/';
    }
  }

  /** An entry of a directory has that directory as parent. */
  lemma ChildAccepted(canon: Canonicalizer, root: string, child: string, name: string)
    requires canon(root).Some? && canon(child) == Some(canon(root).value + "/" + name)
    ensures IsPathParent(canon, root, child)
  {
  }

  /**
   * With "/" as the canonical parent only "/" itself (or a child spelled with
   * "//", which canonicalization never produces) passes: the character after
   * the one-character prefix must itself be '/'.
   */
  lemma RootParentRejectsChildren(canon: Canonicalizer, parent: string, child: string)
    requires canon(parent) == Some("/")
    ensures IsPathParent(canon, parent, child) <==>
            canon(child).Some? && (canon(child).value == "/" || "//" <= canon(child).value)
  {
  }

  /** A failed canonicalization of either path rejects the pair. */
  lemma FailedCanonicalizationRejects(canon: Canonicalizer, parent: string, child: string)
    requires canon(parent).None? || canon(child).None?
    ensures !IsPathParent(canon, parent, child)
  {
  }
}
