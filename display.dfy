/** `CommandToDisplayString`: the rendering of a frame for diagnostics.
    The bytes are decoded as ASCII, every '\r' is replaced by the two characters
    '\' 'r', and every '\n' is replaced by itself. */
module Display {
  import opened Framing

  /** ASCII decoding: bytes above 0x7F have no ASCII character and become '?'. */
  function AsciiChar(b: byte): char
  {
    if b < 0x80 then b as char else '?'
  }

  function AsciiString(bytes: seq<byte>): (s: string)
    ensures |s| == |bytes|
    ensures forall i :: 0 <= i < |s| ==> s[i] == AsciiChar(bytes[i])
  {
    if bytes == [] then [] else [AsciiChar(bytes[0])] + AsciiString(bytes[1..])
  }

  /** Replaces every occurrence of the one-character pattern `c` by `rep`. */
  function ReplaceChar(s: string, c: char, rep: string): string
  {
    if s == [] then [] else (if s[0] == c then rep else [s[0]]) + ReplaceChar(s[1..], c, rep)
  }

  function CommandToDisplayString(bytes: seq<byte>): string
  {
    ReplaceChar(ReplaceChar(AsciiString(bytes), '\r', "\\r"), '\n', "\n")
  }

  /** Number of occurrences of `c` in `s`. */
  function Occurrences(s: string, c: char): nat
  {
    if s == [] then 0 else (if s[0] == c then 1 else 0) + Occurrences(s[1..], c)
  }

  /** Replacement distributes over concatenation, so together with its effect on a
      single character it is fixed: each `c` becomes `rep`, any other character stays. */
  lemma {:induction false} ReplaceCharConcat(a: string, b: string, c: char, rep: string)
    ensures ReplaceChar(a + b, c, rep) == ReplaceChar(a, c, rep) + ReplaceChar(b, c, rep)
  {
    if a == [] {
      assert a + b == b;
    } else {
      assert (a + b)[0] == a[0];
      assert (a + b)[1..] == a[1..] + b;
      ReplaceCharConcat(a[1..], b, c, rep);
    }
  }

  /** Replacing a character by itself changes nothing: the second `Replace` is the identity. */
  lemma {:induction false} ReplaceCharBySelf(s: string, c: char)
    ensures ReplaceChar(s, c, [c]) == s
  {
    if s != [] {
      ReplaceCharBySelf(s[1..], c);
      assert s == [s[0]] + s[1..];
    }
  }

  /** A replacement without the pattern in it removes every occurrence of the pattern. */
  lemma {:induction false} ReplaceCharRemoves(s: string, c: char, rep: string)
    requires c !in rep
    ensures c !in ReplaceChar(s, c, rep)
  {
    if s != [] {
      ReplaceCharRemoves(s[1..], c, rep);
    }
  }

  /** A character that is neither the pattern nor in the replacement keeps its count. */
  lemma {:induction false} ReplaceCharKeeps(s: string, c: char, rep: string, d: char)
    requires d != c && d !in rep
    ensures Occurrences(ReplaceChar(s, c, rep), d) == Occurrences(s, d)
  {
    if s != [] {
      ReplaceCharKeeps(s[1..], c, rep, d);
      var head := if s[0] == c then rep else [s[0]];
      OccurrencesConcat(head, ReplaceChar(s[1..], c, rep), d);
      NoOccurrences(rep, d);
      if s[0] != c {
        assert head[1..] == [];
      }
    }
  }

  lemma {:induction false} NoOccurrences(s: string, d: char)
    requires d !in s
    ensures Occurrences(s, d) == 0
  {
    if s != [] {
      NoOccurrences(s[1..], d);
    }
  }

  lemma {:induction false} OccurrencesConcat(a: string, b: string, d: char)
    ensures Occurrences(a + b, d) == Occurrences(a, d) + Occurrences(b, d)
  {
    if a == [] {
      assert a + b == b;
    } else {
      assert (a + b)[0] == a[0];
      assert (a + b)[1..] == a[1..] + b;
      OccurrencesConcat(a[1..], b, d);
    }
  }

  /** A two-character replacement adds one character per occurrence. */
  lemma {:induction false} ReplaceCharLength(s: string, c: char, rep: string)
    requires |rep| == 2
    ensures |ReplaceChar(s, c, rep)| == |s| + Occurrences(s, c)
  {
    if s != [] {
      ReplaceCharLength(s[1..], c, rep);
    }
  }

  /** Rendering splits along any cut of the frame. */
  lemma DisplayConcat(a: seq<byte>, b: seq<byte>)
    ensures CommandToDisplayString(a + b) == CommandToDisplayString(a) + CommandToDisplayString(b)
  {
    AsciiConcat(a, b);
    ReplaceCharConcat(AsciiString(a), AsciiString(b), '\r', "\\r");
    ReplaceCharBySelf(ReplaceChar(AsciiString(a + b), '\r', "\\r"), '\n');
    ReplaceCharBySelf(ReplaceChar(AsciiString(a), '\r', "\\r"), '\n');
    ReplaceCharBySelf(ReplaceChar(AsciiString(b), '\r', "\\r"), '\n');
  }

  /** A single byte is shown as its ASCII character, except '\r', which is shown as
      '\' 'r'. With `DisplayConcat` this fixes the rendering of every frame. */
  lemma DisplayOfByte(b: byte)
    ensures CommandToDisplayString([b]) == if b == CR then "\\r" else [AsciiChar(b)]
  {
    var x := AsciiChar(b);
    assert AsciiString([b]) == [x];
    assert (x == '\r') == (b == CR);
    var escaped := ReplaceChar([x], '\r', "\\r");
    assert escaped == (if x == '\r' then "\\r" else [x]) + ReplaceChar([x][1..], '\r', "\\r");
    assert [x][1..] == [];
    ReplaceCharBySelf(escaped, '\n');
  }

  /** The rendered frame holds no '\r'; it has one character more per '\r' in the
      frame; every '\n' of the decoded frame is still there; and rendering splits
      along any cut of the frame. */
  lemma DisplayFacts(bytes: seq<byte>, cut: nat)
    requires cut <= |bytes|
    ensures var shown := CommandToDisplayString(bytes);
      '\r' !in shown
      && |shown| == |bytes| + Occurrences(AsciiString(bytes), '\r')
      && Occurrences(shown, '\n') == Occurrences(AsciiString(bytes), '\n')
      && shown == CommandToDisplayString(bytes[..cut]) + CommandToDisplayString(bytes[cut..])
  {
    var text := AsciiString(bytes);
    ReplaceCharBySelf(ReplaceChar(text, '\r', "\\r"), '\n');
    assert CommandToDisplayString(bytes) == ReplaceChar(text, '\r', "\\r");
    ReplaceCharRemoves(text, '\r', "\\r");
    ReplaceCharKeeps(text, '\r', "\\r", '\n');
    ReplaceCharLength(text, '\r', "\\r");
    assert bytes == bytes[..cut] + bytes[cut..];
    DisplayConcat(bytes[..cut], bytes[cut..]);
  }

  lemma AsciiConcat(a: seq<byte>, b: seq<byte>)
    ensures AsciiString(a + b) == AsciiString(a) + AsciiString(b)
  {
  }

  /** Undoes the rendering of '\r' ('\' 'r' back to '\r'). */
  function Unescape(s: string): string
  {
    if s == [] then []
    else if |s| >= 2 && s[0] == '\\' && s[1] == 'r' then "\r" + Unescape(s[2..])
    else [s[0]] + Unescape(s[1..])
  }

  lemma {:induction false} UnescapeEscape(s: string)
    requires '\\' !in s
    ensures Unescape(ReplaceChar(s, '\r', "\\r")) == s
  {
    if s != [] {
      var tail := ReplaceChar(s[1..], '\r', "\\r");
      UnescapeEscape(s[1..]);
      if s[0] == '\r' {
        assert ReplaceChar(s, '\r', "\\r") == "\\r" + tail;
        assert ("\\r" + tail)[2..] == tail;
      } else {
        assert ReplaceChar(s, '\r', "\\r") == [s[0]] + tail;
        assert ([s[0]] + tail)[1..] == tail;
      }
      assert s == [s[0]] + s[1..];
    }
  }

  /** For a frame whose ASCII text has no backslash, the rendering loses nothing:
      undoing the '\r' escape gives back the decoded frame. */
  lemma DisplayRoundTrip(bytes: seq<byte>)
    requires '\\' !in AsciiString(bytes)
    ensures Unescape(CommandToDisplayString(bytes)) == AsciiString(bytes)
  {
    ReplaceCharBySelf(ReplaceChar(AsciiString(bytes), '\r', "\\r"), '\n');
    UnescapeEscape(AsciiString(bytes));
  }

  /** With a backslash in the frame the rendering is ambiguous: the frame "\r" and the
      two-byte frame "\" "r" are shown alike. */
  lemma DisplayIsAmbiguous()
    ensures CommandToDisplayString([CR]) == CommandToDisplayString([0x5C, 0x72])
  {
    assert AsciiString([CR]) == "\r";
    assert AsciiString([0x5C, 0x72]) == "\\r";
    assert ReplaceChar("\r", '\r', "\\r") == "\\r";
    assert ReplaceChar("\\r", '\r', "\\r") == "\\r";
    ReplaceCharBySelf("\\r", '\n');
  }
}
