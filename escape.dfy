/** The two text transforms of the message code. `parse_escape` undoes, in
    place and without changing the length, the backslash escapes the server
    leaves in received text; `parse_unescape` doubles the escaping of text that
    is about to be sent. The two are not inverse to each other: see
    `EscapeDoesNotUndoUnescape`. */
module TextEscape {
  import opened Seqs
  import opened Optional

  /** What `parse_escape` writes in place of a backslash, given the character
      after it: `\n` gives a newline, `\t` a tab, `\r` a space, and `\\` as well
      as every other character leave the backslash where it is. */
  function EscapeMap(c: char): char {
    if c == 'n' then '\n'
    else if c == 'r' then ' '
    else if c == 't' then '\t'
    else '\\'
  }

  predicate NoBackslash(s: string) {
    forall k :: 0 <= k < |s| ==> s[k] != '\\'
  }

  /** The text `parse_escape` leaves in the buffer. Each backslash that has a
      character after it is replaced by `EscapeMap` of that character, that
      character is overwritten with a space and the scan resumes after it. A
      backslash that ends the text is left alone (the C code would overwrite
      the terminator there). */
  function Escape(s: string): string {
    if s == [] then []
    else if s[0] == '\\' && |s| >= 2 then [EscapeMap(s[1]), ' '] + Escape(s[2..])
    else [s[0]] + Escape(s[1..])
  }

  /** The transform works in place: the length never changes. */
  lemma {:induction false} EscapeLength(s: string)
    ensures |Escape(s)| == |s|
  {
    if s == [] {
    } else if s[0] == '\\' && |s| >= 2 {
      EscapeLength(s[2..]);
    } else {
      EscapeLength(s[1..]);
    }
  }

  /** Text without a backslash passes through unchanged, and the transform of
      what follows it does not depend on it. */
  lemma {:induction false} EscapePlainPrefix(p: string, t: string)
    requires NoBackslash(p)
    ensures Escape(p + t) == p + Escape(t)
  {
    if p != [] {
      assert (p + t)[0] == p[0] && (p + t)[1..] == p[1..] + t;
      assert Escape(p + t) == [p[0]] + Escape(p[1..] + t);
      EscapePlainPrefix(p[1..], t);
      assert [p[0]] + p[1..] == p;
    } else {
      assert p + t == t;
    }
  }

  /** The first backslash after plain text, with a character after it, becomes
      `EscapeMap` of that character followed by a space, and the scan goes on
      with the text after the pair: a character the transform has written is
      never looked at again. */
  lemma EscapePair(p: string, c: char, t: string)
    requires NoBackslash(p)
    ensures Escape(p + ['\\', c] + t) == p + [EscapeMap(c), ' '] + Escape(t)
  {
    assert p + ['\\', c] + t == p + (['\\', c] + t);
    EscapePlainPrefix(p, ['\\', c] + t);
    assert (['\\', c] + t)[2..] == t;
  }

  /** A backslash that ends the text stays as it is. */
  lemma EscapeTrailingBackslash(p: string)
    requires NoBackslash(p)
    ensures Escape(p + ['\\']) == p + ['\\']
  {
    EscapePlainPrefix(p, ['\\']);
  }

  /** The escape table on two-character inputs. */
  lemma EscapeTable()
    ensures Escape("\\n") == "\n " && Escape("\\t") == "\t " && Escape("\\r") == "  "
    ensures Escape("\\\\") == "\\ " && Escape("\\\"") == "\\ "
    ensures Escape("\\\\n") == "\\ n"
  {
  }

  /** `strchr(a + from, c)` over the characters of the buffer: the index of the
      first `c` at or after `from`, or -1 for NULL. */
  method FindChar(a: array<char>, from: nat, c: char) returns (k: int)
    requires from <= a.Length
    ensures k == -1 ==> forall j :: from <= j < a.Length ==> a[j] != c
    ensures k != -1 ==> from <= k < a.Length && a[k] == c
    ensures k != -1 ==> forall j :: from <= j < k ==> a[j] != c
  {
    k := from;
    while k < a.Length && a[k] != c
      invariant from <= k <= a.Length
      invariant forall j :: from <= j < k ==> a[j] != c
    {
      k := k + 1;
    }
    if k == a.Length {
      k := -1;
    }
  }

  /** The scan has reached `ptr` and no backslash is left after it. */
  lemma EscapeDone(s: string, ptr: nat)
    requires ptr <= |s|
    requires forall j :: ptr <= j < |s| ==> s[j] != '\\'
    ensures s[..ptr] + Escape(s[ptr..]) == s
  {
    EscapePlainPrefix(s[ptr..], []);
    assert s[ptr..] + [] == s[ptr..];
    assert s[..ptr] + s[ptr..] == s;
  }

  /** The scan has reached `ptr` and the only backslash left ends the text. */
  lemma EscapeDoneTrailing(s: string, ptr: nat)
    requires ptr < |s| && s[|s| - 1] == '\\'
    requires forall j :: ptr <= j < |s| - 1 ==> s[j] != '\\'
    ensures s[..ptr] + Escape(s[ptr..]) == s
  {
    var n := |s| - 1;
    assert s[ptr..] == s[ptr..n] + ['\\'];
    EscapeTrailingBackslash(s[ptr..n]);
    assert s[..ptr] + s[ptr..] == s;
  }

  /** One round of `parse_escape` on the buffer contents `s`: the pair at
      `esc` is rewritten and the scan moves to `esc + 1`. */
  lemma EscapeRound(s: string, ptr: nat, esc: nat)
    requires ptr <= esc && esc + 1 < |s| && s[esc] == '\\'
    requires forall j :: ptr <= j < esc ==> s[j] != '\\'
    ensures var w := s[esc := EscapeMap(s[esc + 1])][esc + 1 := ' '];
      w[..esc + 1] + Escape(w[esc + 1..]) == s[..ptr] + Escape(s[ptr..])
  {
    var c := s[esc + 1];
    var p, t := s[ptr..esc], s[esc + 2..];
    PairSlices(s, ptr, esc);
    EscapePair(p, c, t);
    RewrittenSlices(s, ptr, esc, EscapeMap(c));
    EscapeSpace(t);
    RegroupRound(s[..ptr], p, EscapeMap(c), Escape(t));
  }

  /** The text from `ptr` is the plain run, the pair at `esc` and the rest. */
  lemma PairSlices(s: string, ptr: nat, esc: nat)
    requires ptr <= esc && esc + 1 < |s|
    ensures s[ptr..] == s[ptr..esc] + [s[esc], s[esc + 1]] + s[esc + 2..]
  {
  }

  /** The buffer after the pair at `esc` is rewritten, split where the scan
      resumes. */
  lemma RewrittenSlices(s: string, ptr: nat, esc: nat, m: char)
    requires ptr <= esc && esc + 1 < |s|
    ensures var w := s[esc := m][esc + 1 := ' '];
      w[..esc + 1] == s[..ptr] + s[ptr..esc] + [m] && w[esc + 1..] == [' '] + s[esc + 2..]
  {
    var w := s[esc := m][esc + 1 := ' '];
    assert w[..esc + 1] == s[..esc] + [m];
    assert s[..esc] == s[..ptr] + s[ptr..esc];
  }

  /** A space is not a backslash, so it passes through. */
  lemma EscapeSpace(t: string)
    ensures Escape([' '] + t) == [' '] + Escape(t)
  {
    assert ([' '] + t)[1..] == t;
  }

  lemma RegroupRound(a: string, p: string, m: char, e: string)
    ensures (a + p + [m]) + ([' '] + e) == a + (p + [m, ' '] + e)
  {
  }

  /** `parse_escape`: rewrites the received text in its own buffer. */
  method ParseEscape(a: array<char>)
    modifies a
    ensures a[..] == Escape(old(a[..]))
  {
    var ptr := 0;
    while true
      invariant 0 <= ptr <= a.Length
      invariant a[..ptr] + Escape(a[ptr..]) == Escape(old(a[..]))
      decreases a.Length - ptr
    {
      var esc := FindChar(a, ptr, '\\');
      if esc == -1 {
        EscapeDone(a[..], ptr);
        break;
      }
      if esc + 1 == a.Length {
        EscapeDoneTrailing(a[..], ptr);
        break;
      }
      EscapeRound(a[..], ptr, esc);
      a[esc] := EscapeMap(a[esc + 1]);
      a[esc + 1] := ' ';
      ptr := esc + 1;
    }
  }

  /** The characters `parse_unescape` rewrites. */
  predicate Special(c: char) {
    c == '\n' || c == '\t' || c == '\\'
  }

  /** What `parse_unescape` writes for one character: a newline as `\\n`, a tab
      as `\\t`, a backslash as four backslashes, anything else as itself. */
  function UnescapeChar(c: char): string {
    if c == '\n' then "\\\\n"
    else if c == '\t' then "\\\\t"
    else if c == '\\' then "\\\\\\\\"
    else [c]
  }

  /** The text `parse_unescape` writes for `s`. */
  function Unescape(s: string): string {
    if s == [] then [] else UnescapeChar(s[0]) + Unescape(s[1..])
  }

  lemma {:induction false} UnescapeAppend(a: string, b: string)
    ensures Unescape(a + b) == Unescape(a) + Unescape(b)
  {
    if a != [] {
      assert (a + b)[0] == a[0] && (a + b)[1..] == a[1..] + b;
      UnescapeAppend(a[1..], b);
    } else {
      assert a + b == b;
    }
  }

  /** Characters other than newline, tab and backslash are copied unchanged and
      in order. */
  lemma {:induction false} UnescapePlain(s: string)
    requires forall k :: 0 <= k < |s| ==> !Special(s[k])
    ensures Unescape(s) == s
  {
    if s != [] {
      UnescapePlain(s[1..]);
    }
  }

  /** The output holds no raw newline and no raw tab. */
  lemma {:induction false} UnescapeNoRawControl(s: string)
    ensures forall k :: 0 <= k < |Unescape(s)| ==> Unescape(s)[k] != '\n' && Unescape(s)[k] != '\t'
  {
    if s != [] {
      UnescapeNoRawControl(s[1..]);
    }
  }

  /** A reader of the doubled escaping, the partner of `Unescape`: `\\n`,
      `\\t` and four backslashes give back one newline, tab and backslash; any
      other backslash is malformed. */
  function ReadBack(t: string): Option<string> {
    if t == [] then Some([])
    else
      var rest: Option<(string, nat)> :=
        if t[0] != '\\' then Some(([t[0]], 1))
        else if |t| >= 3 && t[1] == '\\' && t[2] == 'n' then Some(("\n", 3))
        else if |t| >= 3 && t[1] == '\\' && t[2] == 't' then Some(("\t", 3))
        else if |t| >= 4 && t[1] == '\\' && t[2] == '\\' && t[3] == '\\' then Some(("\\", 4))
        else None;
      match rest
      case None => None
      case Some((c, n)) =>
        match ReadBack(t[n..])
        case None => None
        case Some(r) => Some(c + r)
  }

  /** One escaped character, then text that reads back as `r`. */
  lemma ReadBackCons(c: char, v: string, r: string)
    requires ReadBack(v) == Some(r)
    ensures ReadBack(UnescapeChar(c) + v) == Some([c] + r)
  {
    var u := UnescapeChar(c) + v;
    var n := |UnescapeChar(c)|;
    assert u[n..] == v;
    if c == '\n' {
      assert u[0] == '\\' && u[1] == '\\' && u[2] == 'n';
    } else if c == '\t' {
      assert u[0] == '\\' && u[1] == '\\' && u[2] == 't';
    } else if c == '\\' {
      assert u[0] == '\\' && u[1] == '\\' && u[2] == '\\' && u[3] == '\\';
    } else {
      assert u[0] == c;
    }
  }

  /** Nothing is lost by `parse_unescape`: the doubled text reads back as the
      original. */
  lemma {:induction false} UnescapeReadBack(s: string)
    ensures ReadBack(Unescape(s)) == Some(s)
  {
    if s != [] {
      UnescapeReadBack(s[1..]);
      ReadBackCons(s[0], Unescape(s[1..]), s[1..]);
      SplitAt(s, 1);
      assert s[..1] == [s[0]];
    }
  }

  /** `parse_escape` does not undo `parse_unescape`: a newline comes back as a
      backslash, a space and the letter n. */
  lemma EscapeDoesNotUndoUnescape()
    ensures Unescape("\n") == "\\\\n"
    ensures Escape(Unescape("\n")) == "\\ n" != "\n"
  {
  }

  /** `strcspn(s + from, "\n\t\\")`, as an index into `s`. */
  method SpanPlain(s: string, from: nat) returns (idx: nat)
    requires from <= |s|
    ensures from <= idx <= |s|
    ensures forall k :: from <= k < idx ==> !Special(s[k])
    ensures idx < |s| ==> Special(s[idx])
  {
    idx := from;
    while idx < |s| && !Special(s[idx])
      invariant from <= idx <= |s|
      invariant forall k :: from <= k < idx ==> !Special(s[k])
    {
      idx := idx + 1;
    }
  }

  lemma UnescapeSingle(x: char)
    ensures Unescape([x]) == UnescapeChar(x)
  {
    assert [x][1..] == [];
  }

  /** Plain text, then one character, after what is already written. */
  lemma UnescapeSplice(a: string, p: string, x: char)
    requires forall k :: 0 <= k < |p| ==> !Special(p[k])
    ensures Unescape(a + p + [x]) == Unescape(a) + p + UnescapeChar(x)
  {
    UnescapePlain(p);
    UnescapeAppend(a, p);
    UnescapeAppend(a + p, [x]);
    UnescapeSingle(x);
  }

  /** Plain text after what is already written. */
  lemma UnescapeTail(a: string, p: string)
    requires forall k :: 0 <= k < |p| ==> !Special(p[k])
    ensures Unescape(a + p) == Unescape(a) + p
  {
    UnescapePlain(p);
    UnescapeAppend(a, p);
  }

  /** One round of `parse_unescape`: plain text up to the next special
      character, then that character's doubled escape. */
  lemma UnescapeStep(source: string, ptr: nat, idx: nat)
    requires ptr <= idx < |source|
    requires forall k :: ptr <= k < idx ==> !Special(source[k])
    ensures Unescape(source[..idx + 1]) == Unescape(source[..ptr]) + source[ptr..idx] + UnescapeChar(source[idx])
  {
    var a, p, x := source[..ptr], source[ptr..idx], source[idx];
    assert source[..idx + 1] == a + p + [x];
    assert forall k :: 0 <= k < |p| ==> !Special(p[k]) by {
      forall k | 0 <= k < |p| ensures !Special(p[k]) {
        assert p[k] == source[ptr + k];
      }
    }
    UnescapeSplice(a, p, x);
  }

  /** The last round: no special character is left. */
  lemma UnescapeLast(source: string, ptr: nat)
    requires ptr <= |source|
    requires forall k :: ptr <= k < |source| ==> !Special(source[k])
    ensures Unescape(source) == Unescape(source[..ptr]) + source[ptr..]
  {
    PlainSlice(source, ptr, |source|);
    SplitAt(source, ptr);
    UnescapeTail(source[..ptr], source[ptr..]);
  }

  /** The characters between `from` and `to` as a plain text of their own. */
  lemma PlainSlice(s: string, from: nat, to: nat)
    requires from <= to <= |s|
    requires forall k :: from <= k < to ==> !Special(s[k])
    ensures forall k :: 0 <= k < to - from ==> !Special(s[from..to][k])
  {
  }

  /** `parse_unescape`: the text written into the caller's buffer. */
  method ParseUnescape(source: string) returns (buf: string)
    ensures buf == Unescape(source)
  {
    buf := [];
    var ptr := 0;
    while ptr < |source|
      invariant 0 <= ptr <= |source|
      invariant buf == Unescape(source[..ptr])
      decreases |source| - ptr
    {
      var idx := SpanPlain(source, ptr);
      if idx == |source| {
        UnescapeLast(source, ptr);
        buf := buf + source[ptr..];
        ptr := |source|;
        break;
      }
      UnescapeStep(source, ptr, idx);
      buf := buf + source[ptr..idx];
      if source[idx] == '\n' {
        buf := buf + "\\\\n";
      } else if source[idx] == '\t' {
        buf := buf + "\\\\t";
      } else {
        buf := buf + "\\\\\\\\";
      }
      ptr := idx + 1;
    }
    assert source[..ptr] == source;
  }
}
