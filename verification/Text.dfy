/** The few string operations of the JavaScript library the models need. */
module Text {
  import opened Bits

  /** Bytes one character takes in UTF-8. */
  function Utf8Size(c: char): nat {
    var code := c as int;
    if code < 0x80 then 1 else if code < 0x800 then 2 else if code < 0x1_0000 then 3 else 4
  }

  /** Bits of a code point that an encoding of `n` bytes has room for (RFC 3629, section 3). */
  function RoomIn(n: nat): nat {
    if n == 1 then 7 else 5 * n + 1
  }

  /** The encoding is the shortest one with room for the character. */
  lemma Utf8SizeIsShortest(c: char)
    ensures 1 <= Utf8Size(c) <= 4
    ensures c as int < Pow2(RoomIn(Utf8Size(c)))
    ensures Utf8Size(c) > 1 ==> Pow2(RoomIn(Utf8Size(c) - 1)) <= c as int
  {
    assert Pow2(7) == 0x80;
    assert Pow2(11) == 0x10 * Pow2(7);
    assert Pow2(16) == 0x20 * Pow2(11);
    assert Pow2(21) == 0x20 * Pow2(16);
  }

  /** `new TextEncoder().encode(s).byteLength`. */
  function Utf8Length(s: string): nat {
    if s == "" then 0 else Utf8Size(s[0]) + Utf8Length(s[1..])
  }

  predicate StartsWith(s: string, prefix: string) {
    |prefix| <= |s| && s[..|prefix|] == prefix
  }

  /** The white space and line terminators `trimStart` removes. */
  predicate IsSpace(c: char) {
    var code := c as int;
    || 0x09 <= code <= 0x0D || code == 0x20 || code == 0xA0 || code == 0x1680
    || 0x2000 <= code <= 0x200A || code == 0x2028 || code == 0x2029
    || code == 0x202F || code == 0x205F || code == 0x3000 || code == 0xFEFF
  }

  function TrimStart(s: string): string {
    if s != "" && IsSpace(s[0]) then TrimStart(s[1..]) else s
  }

  /** WhiteSpace and LineTerminator of ECMA-262, sections 12.2 and 12.3, with the space separators of Unicode. */
  const SPACES: set<char> := {
    '\U{0009}', '\U{000A}', '\U{000B}', '\U{000C}', '\U{000D}', '\U{0020}', '\U{00A0}', '\U{1680}',
    '\U{2000}', '\U{2001}', '\U{2002}', '\U{2003}', '\U{2004}', '\U{2005}', '\U{2006}', '\U{2007}',
    '\U{2008}', '\U{2009}', '\U{200A}', '\U{2028}', '\U{2029}', '\U{202F}', '\U{205F}', '\U{3000}', '\U{FEFF}'}

  lemma SpacesAreListed(c: char)
    ensures IsSpace(c) <==> c in SPACES
  {
  }

  /** Exactly the white space in front is gone. */
  lemma {:induction false} TrimStartIsExact(s: string) returns (k: nat)
    ensures k <= |s| && TrimStart(s) == s[k..]
    ensures (forall i :: 0 <= i < k ==> s[i] in SPACES) && (k < |s| ==> s[k] !in SPACES)
  {
    hide IsSpace;
    k := 0;
    if s != "" {
      SpacesAreListed(s[0]);
      if IsSpace(s[0]) {
        var rest := TrimStartIsExact(s[1..]);
        k := rest + 1;
      }
    }
  }

  /** `s.split("\n")`: never empty, and no piece holds a line feed. */
  function Lines(s: string): (lines: seq<string>)
    ensures |lines| > 0
  {
    if s == "" then [""]
    else
      var rest := Lines(s[1..]);
      if s[0] == '\n' then [""] + rest else [[s[0]] + rest[0]] + rest[1..]
  }

  /** `parts.join(separator)`. */
  function Join(parts: seq<string>, separator: string): string {
    if parts == [] then ""
    else if |parts| == 1 then parts[0]
    else parts[0] + separator + Join(parts[1..], separator)
  }
}
