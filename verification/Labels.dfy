/** Label values in the Prometheus text exposition format 0.0.4: the escaper of
    crates/razerd/src/metrics.rs, and what the format's own reader makes of its output. */
module Labels {
  import opened Wrappers

  /** `str::replace` of a one-character pattern. */
  function Replace(s: string, from: char, to: string): string {
    if s == [] then []
    else Replace(s[..|s| - 1], from, to) + (if s[|s| - 1] == from then to else [s[|s| - 1]])
  }

  /** Four passes, the backslash first. */
  function Escape(s: string): string {
    Replace(Replace(Replace(Replace(s, '\\', "\\\\"), '"', "\\\""), '\n', "\\n"), '\r', "\\r")
  }

  // -------------------------------------------------- one pass over characters

  function EscapeChar(c: char): string {
    match c
    case '\\' => "\\\\"
    case '"' => "\\\""
    case '\n' => "\\n"
    case '\r' => "\\r"
    case _ => [c]
  }

  function Substituted(s: string): string {
    if s == [] then [] else Substituted(s[..|s| - 1]) + EscapeChar(s[|s| - 1])
  }

  lemma ReplaceSnoc(s: string, c: char, from: char, to: string)
    ensures Replace(s + [c], from, to) == Replace(s, from, to) + (if c == from then to else [c])
  {
    assert (s + [c])[..|s + [c]| - 1] == s;
  }

  lemma ReplaceNothing(from: char, to: string)
    ensures Replace([], from, to) == []
  {
  }

  lemma ReplaceLast(s: string, from: char, to: string)
    requires s != []
    ensures Replace(s, from, to) == Replace(s[..|s| - 1], from, to) + (if s[|s| - 1] == from then to else [s[|s| - 1]])
  {
  }

  lemma {:induction false} ReplaceConcat(a: string, b: string, from: char, to: string)
    ensures Replace(a + b, from, to) == Replace(a, from, to) + Replace(b, from, to)
    decreases |b|
  {
    hide Replace;
    if b == [] {
      assert a + b == a;
      ReplaceNothing(from, to);
    } else {
      var n := |b| - 1;
      ReplaceConcat(a, b[..n], from, to);
      ReplaceLast(b, from, to);
      assert a + b == (a + b[..n]) + [b[n]];
      ReplaceSnoc(a + b[..n], b[n], from, to);
    }
  }

  lemma ReplaceShort(s: string, from: char, to: string)
    requires 1 <= |s| <= 2
    ensures Replace(s, from, to) ==
            (if s[0] == from then to else [s[0]]) + (if |s| == 1 then [] else if s[1] == from then to else [s[1]])
  {
    assert Replace(s[..1], from, to) == if s[0] == from then to else [s[0]] by {
      assert s[..1][..0] == [];
    }
    if |s| == 1 {
      assert s[..1] == s;
    }
  }

  lemma EscapeOne(c: char)
    ensures Escape([c]) == EscapeChar(c)
  {
    hide Replace;
    ReplaceShort([c], '\\', "\\\\");
    var s1 := if c == '\\' then "\\\\" else [c];
    assert Replace([c], '\\', "\\\\") == s1;
    ReplaceShort(s1, '"', "\\\"");
    var s2 := if c == '"' then "\\\"" else s1;
    assert Replace(s1, '"', "\\\"") == s2;
    ReplaceShort(s2, '\n', "\\n");
    var s3 := if c == '\n' then "\\n" else s2;
    assert Replace(s2, '\n', "\\n") == s3;
    ReplaceShort(s3, '\r', "\\r");
    assert Replace(s3, '\r', "\\r") == if c == '\r' then "\\r" else s3;
  }

  lemma EscapeConcat(a: string, b: string)
    ensures Escape(a + b) == Escape(a) + Escape(b)
  {
    hide Replace;
    ReplaceConcat(a, b, '\\', "\\\\");
    var a1, b1 := Replace(a, '\\', "\\\\"), Replace(b, '\\', "\\\\");
    ReplaceConcat(a1, b1, '"', "\\\"");
    var a2, b2 := Replace(a1, '"', "\\\""), Replace(b1, '"', "\\\"");
    ReplaceConcat(a2, b2, '\n', "\\n");
    ReplaceConcat(Replace(a2, '\n', "\\n"), Replace(b2, '\n', "\\n"), '\r', "\\r");
  }

  /** The four successive passes are one character-by-character substitution: no pass
      touches what an earlier one inserted. */
  lemma {:induction false} EscapeIsSubstitution(s: string)
    ensures Escape(s) == Substituted(s)
  {
    hide Escape, EscapeChar;
    if s == [] {
      EscapeNothing();
    } else {
      var n := |s| - 1;
      EscapeIsSubstitution(s[..n]);
      EscapeConcat(s[..n], [s[n]]);
      EscapeOne(s[n]);
      assert s == s[..n] + [s[n]];
    }
  }

  lemma EscapeNothing()
    ensures Escape([]) == []
  {
  }

  lemma EscapeSplitFirst(s: string)
    requires s != []
    ensures Escape(s) == EscapeChar(s[0]) + Escape(s[1..])
  {
    hide Escape, EscapeChar;
    assert s == [s[0]] + s[1..];
    EscapeConcat([s[0]], s[1..]);
    EscapeOne(s[0]);
  }

  // --------------------------------------------------------- shape of the output

  /** Length of the run of backslashes that ends just before index `i`. */
  function RunBefore(s: string, i: nat): nat
    requires i <= |s|
  {
    if i == 0 || s[i - 1] != '\\' then 0 else 1 + RunBefore(s, i - 1)
  }

  lemma {:induction false} RunBeforePrefix(s: string, t: string, i: nat)
    requires i <= |s|
    ensures RunBefore(s + t, i) == RunBefore(s, i)
  {
    if i > 0 {
      assert (s + t)[i - 1] == s[i - 1];
      RunBeforePrefix(s, t, i - 1);
    }
  }

  /** No quote that could end the value early, no raw line break. */
  ghost predicate WellEscaped(t: string) {
    && (forall i :: 0 <= i < |t| && t[i] == '"' ==> RunBefore(t, i) % 2 == 1)
    && (forall i :: 0 <= i < |t| ==> t[i] != '\n' && t[i] != '\r')
    && RunBefore(t, |t|) % 2 == 0
  }

  lemma {:induction false} SubstitutedWellEscaped(s: string)
    ensures WellEscaped(Substituted(s))
  {
    if s != [] {
      var head, c := Substituted(s[..|s| - 1]), s[|s| - 1];
      SubstitutedWellEscaped(s[..|s| - 1]);
      OneMore(head, c);
    }
  }

  lemma OneMore(head: string, c: char)
    requires WellEscaped(head)
    ensures WellEscaped(head + EscapeChar(c))
  {
    hide EscapeChar, RunBefore;
    var t, e := head + EscapeChar(c), EscapeChar(c);
    EscapeCharShape(c);
    RunsAfter(head, e);
    forall i | 0 <= i < |t|
      ensures t[i] == '"' ==> RunBefore(t, i) % 2 == 1
      ensures t[i] != '\n' && t[i] != '\r'
    {
      if i < |head| {
        RunBeforePrefix(head, e, i);
        assert t[i] == head[i];
      } else {
        assert t[i] == e[i - |head|];
      }
    }
  }

  lemma RunsAfter(head: string, e: string)
    requires RunBefore(head, |head|) % 2 == 0
    requires (|e| == 1 && e[0] != '\\') || (|e| == 2 && e[0] == '\\')
    ensures RunBefore(head + e, |head + e|) % 2 == 0
    ensures |e| == 2 ==> RunBefore(head + e, |head| + 1) % 2 == 1
  {
    var t := head + e;
    RunBeforePrefix(head, e, |head|);
    assert t[|head|] == e[0];
    if |e| == 2 {
      assert RunBefore(t, |head| + 1) == RunBefore(t, |head|) + 1;
      assert t[|head| + 1] == e[1];
    }
  }

  lemma EscapeCharShape(c: char)
    ensures var e := EscapeChar(c);
            || (|e| == 1 && e[0] != '\\' && e[0] != '"' && e[0] != '\n' && e[0] != '\r')
            || (|e| == 2 && e[0] == '\\' && e[1] != '\n' && e[1] != '\r')
  {
  }

  /** Escaped text contains no raw newline or carriage return, every quote in it follows an
      odd run of backslashes, and it does not end in one. */
  lemma EscapeShape(s: string)
    ensures WellEscaped(Escape(s))
  {
    EscapeIsSubstitution(s);
    SubstitutedWellEscaped(s);
  }

  // --------------------------------------------------------------- the readers

  /** The format defines three escapes in a label value: backslash, quote and line feed.
      `Standard` knows these and rejects any other; `Lenient` knows these and leaves any other
      as it stands; `Own` undoes the escaper, carriage return included. */
  datatype Reader = Standard | Lenient | Own

  /** What a backslash followed by `c` stands for. */
  function Unescaped(reader: Reader, c: char): Option<string> {
    if c == '\\' || c == '"' then Some([c])
    else if c == 'n' then Some("\n")
    else
      match reader
      case Standard => None
      case Lenient => Some(['\\', c])
      case Own => if c == 'r' then Some("\r") else None
  }

  /** Read an escaped value up to its closing quote: the value, and what follows the quote. */
  function ScanValue(reader: Reader, s: string): (r: Option<(string, string)>)
    ensures r.Some? ==> |r.value.1| < |s|
  {
    if s == [] then None
    else if s[0] == '"' then Some(([], s[1..]))
    else if s[0] != '\\' then Push([s[0]], ScanValue(reader, s[1..]))
    else if |s| < 2 || Unescaped(reader, s[1]).None? then None
    else Push(Unescaped(reader, s[1]).value, ScanValue(reader, s[2..]))
  }

  function Push(front: string, rest: Option<(string, string)>): Option<(string, string)> {
    match rest
    case Some((value, tail)) => Some((front + value, tail))
    case None => None
  }

  /** The carriage return is the one character the escaper writes in a way the format does
      not define: `Standard` reads a value exactly when it has none. */
  predicate Legible(reader: Reader, value: string) {
    reader.Standard? ==> '\r' !in value
  }

  /** A legible value as the reader sees it: `Lenient` sees a carriage return as a backslash
      and an r. */
  function Shown(reader: Reader, value: string): string {
    if reader.Lenient? then Replace(value, '\r', "\\r") else value
  }

  /** Reading an escaped value, whatever follows its closing quote: the exact outcome for
      each reader. */
  lemma {:induction false} ScanEscaped(reader: Reader, value: string, tail: string)
    ensures ScanValue(reader, Escape(value) + "\"" + tail) ==
            if Legible(reader, value) then Some((Shown(reader, value), tail)) else None
  {
    hide Escape, ScanValue, Unescaped;
    if value == [] {
      EscapeNothing();
      assert Escape(value) + "\"" + tail == "\"" + tail;
      ScanQuote(reader, tail);
    } else {
      var c, more := value[0], value[1..];
      var rest := Escape(more) + "\"" + tail;
      ScanEscaped(reader, more, tail);
      EscapeSplitFirst(value);
      assert Escape(value) + "\"" + tail == EscapeChar(c) + rest;
      ScanOne(reader, c, rest);
      assert value == [c] + more;
      ShownSplitFirst(reader, c, more);
    }
  }

  lemma ScanQuote(reader: Reader, tail: string)
    ensures ScanValue(reader, "\"" + tail) == Some(([], tail))
  {
    assert ("\"" + tail)[1..] == tail;
  }

  lemma ScanOne(reader: Reader, c: char, rest: string)
    ensures ScanValue(reader, EscapeChar(c) + rest) ==
            if reader.Standard? && c == '\r' then None else Push(Shown(reader, [c]), ScanValue(reader, rest))
  {
    hide Shown;
    var s := EscapeChar(c) + rest;
    assert s[|EscapeChar(c)|..] == rest;
    ShownOne(reader, c);
    if reader.Lenient? && c == '\r' {
      assert Unescaped(reader, s[1]) == Some("\\r");
    }
  }

  lemma ShownOne(reader: Reader, c: char)
    ensures Shown(reader, [c]) == if reader.Lenient? && c == '\r' then "\\r" else [c]
  {
    hide Replace;
    ReplaceShort([c], '\r', "\\r");
  }

  lemma ShownSplitFirst(reader: Reader, c: char, more: string)
    ensures Shown(reader, [c] + more) == Shown(reader, [c]) + Shown(reader, more)
  {
    hide Replace;
    ReplaceConcat([c], more, '\r', "\\r");
  }

  lemma {:induction false} NoneLeft(s: string)
    ensures '\r' !in Replace(s, '\r', "\\r")
    ensures '\r' !in s ==> Replace(s, '\r', "\\r") == s
  {
    if s != [] {
      NoneLeft(s[..|s| - 1]);
      assert s == s[..|s| - 1] + [s[|s| - 1]];
    }
  }

  /** Exactly which values a reader of the format gets back as they were: those without a
      carriage return. Only the escaper's own inverse gets them all. */
  lemma ReadBackExactly(reader: Reader, value: string, tail: string)
    ensures ScanValue(reader, Escape(value) + "\"" + tail) == Some((value, tail))
            <==> reader.Own? || '\r' !in value
  {
    hide Escape, ScanValue;
    ScanEscaped(reader, value, tail);
    NoneLeft(value);
  }

  lemma CarriageReturnShown()
    ensures Shown(Lenient, "\r") == Shown(Lenient, "\\r") == "\\r"
  {
    hide Shown;
    ShownOne(Lenient, '\r');
    ShownOne(Lenient, '\\');
    ShownOne(Lenient, 'r');
    ShownSplitFirst(Lenient, '\\', "r");
    assert ['\\'] + "r" == "\\r";
  }

  /** The failing values: a lone carriage return is rejected by the standard reader, and the
      lenient one takes it for the two characters backslash and r. */
  lemma CarriageReturnIsLost(tail: string)
    ensures ScanValue(Standard, Escape("\r") + "\"" + tail) == None
    ensures ScanValue(Lenient, Escape("\r") + "\"" + tail) == ScanValue(Lenient, Escape("\\r") + "\"" + tail)
  {
    hide Escape, ScanValue, Shown;
    ScanEscaped(Standard, "\r", tail);
    ScanEscaped(Lenient, "\r", tail);
    ScanEscaped(Lenient, "\\r", tail);
    assert "\r"[0] == '\r';
    CarriageReturnShown();
  }

  /** Escaping is injective: distinct values never render alike. */
  lemma EscapeInjective(a: string, b: string)
    ensures Escape(a) == Escape(b) <==> a == b
  {
    hide Escape, ScanValue;
    ScanEscaped(Own, a, []);
    ScanEscaped(Own, b, []);
  }

  predicate Plain(s: string) {
    forall i :: 0 <= i < |s| ==> s[i] != '\\' && s[i] != '"' && s[i] != '\n' && s[i] != '\r'
  }

  /** Text without special characters is its own escaped form. */
  lemma {:induction false} PlainIsItsOwnEscape(s: string)
    requires Plain(s)
    ensures Escape(s) == s
  {
    hide Escape;
    if s == [] {
      EscapeNothing();
    } else {
      EscapeSplitFirst(s);
      PlainIsItsOwnEscape(s[1..]);
      assert s == [s[0]] + s[1..];
    }
  }
}
