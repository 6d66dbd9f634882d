/**
  Attribute references $(key) in channel names (ExpandAttributes, models/node.go:125-150), against a reader that
  goes over the text once, one character at a time.
 */
module Attributes {

  type Attributes = map<string, string>

  /** A key without an attribute stands for the empty string. */
  function Get(attrs: Attributes, key: string): string { if key in attrs then attrs[key] else "" }

  // ---------- The one-pass reader ----------

  /** Where the reader is: in plain text, just past a '$', or inside a reference whose key is being read. */
  datatype Mode = Plain | Dollar | Inside(key: string)

  function After(m: Mode, c: char): Mode {
    match m
    case Inside(key) => if c == ')' then Plain else Inside(key + [c])
    case Dollar => if c == '(' then Inside("") else if c == '$' then Dollar else Plain
    case Plain => if c == '$' then Dollar else Plain
  }

  /** What reading c adds to the output. */
  function Emits(m: Mode, c: char, attrs: Attributes): string {
    match m
    case Inside(key) => if c == ')' then Get(attrs, key) else ""
    case Dollar => if c == '(' then "" else if c == '$' then "$" else ['$', c]
    case Plain => if c == '$' then "" else [c]
  }

  /** What is still owed to the output when the text ends here: unfinished references are copied as they stand. */
  function Owed(m: Mode): string {
    match m case Plain => "" case Dollar => "$" case Inside(key) => "$(" + key
  }

  function ModeAfter(m: Mode, s: string): Mode
    decreases |s|
  {
    if s == "" then m else ModeAfter(After(m, s[0]), s[1..])
  }

  function Read(m: Mode, s: string, attrs: Attributes): string
    decreases |s|
  {
    if s == "" then Owed(m) else Emits(m, s[0], attrs) + Read(After(m, s[0]), s[1..], attrs)
  }

  /** The part of the output that no longer depends on what follows s. */
  function Output(m: Mode, s: string, attrs: Attributes): string
    decreases |s|
  {
    if s == "" then "" else Emits(m, s[0], attrs) + Output(After(m, s[0]), s[1..], attrs)
  }

  function Expand(s: string, attrs: Attributes): string { Read(Plain, s, attrs) }

  lemma Assoc(a: string, b: string, c: string)
    ensures (a + b) + c == a + (b + c)
  {
  }

  lemma {:induction false} ReadJoins(m: Mode, a: string, b: string, attrs: Attributes)
    ensures Read(m, a + b, attrs) == Output(m, a, attrs) + Read(ModeAfter(m, a), b, attrs)
    ensures Read(m, a, attrs) == Output(m, a, attrs) + Owed(ModeAfter(m, a))
    decreases |a|
  {
    if a == "" {
      assert a + b == b;
    } else {
      assert (a + b)[0] == a[0] && (a + b)[1..] == a[1..] + b;
      var n := After(m, a[0]);
      ReadJoins(n, a[1..], b, attrs);
      Assoc(Emits(m, a[0], attrs), Output(n, a[1..], attrs), Read(ModeAfter(m, a), b, attrs));
      Assoc(Emits(m, a[0], attrs), Output(n, a[1..], attrs), Owed(ModeAfter(m, a)));
    }
  }

  /** A '$' that no '(' follows is plain text. */
  lemma LoneDollar(s: string, attrs: Attributes)
    requires s == "" || s[0] != '('
    ensures Read(Dollar, s, attrs) == "$" + Read(Plain, s, attrs)
  {
    if s != "" {
    }
  }

  predicate OpensAt(s: string, i: nat) { i + 1 < |s| && s[i] == '$' && s[i + 1] == '(' }

  lemma PlainOne(s: string, attrs: Attributes)
    requires s != "" && !OpensAt(s, 0)
    ensures Read(Plain, s, attrs) == [s[0]] + Read(Plain, s[1..], attrs)
  {
    if s[0] == '$' {
      LoneDollar(s[1..], attrs);
    }
  }

  lemma Shifted(s: string, i: nat)
    requires 0 < i <= |s|
    ensures s[..i] == [s[0]] + s[1..][..i - 1] && s[i..] == s[1..][i - 1..]
  {
  }

  lemma {:induction false} PlainUpTo(s: string, i: nat, attrs: Attributes)
    requires i <= |s| && forall j :: 0 <= j < i ==> !OpensAt(s, j)
    ensures Read(Plain, s, attrs) == s[..i] + Read(Plain, s[i..], attrs)
    decreases |s|
  {
    if i > 0 {
      var t := s[1..];
      forall j | 0 <= j < i - 1 ensures !OpensAt(t, j) {
        assert OpensAt(t, j) == OpensAt(s, j + 1);
      }
      PlainUpTo(t, i - 1, attrs);
      assert !OpensAt(s, 0);
      PlainOne(s, attrs);
      Shifted(s, i);
      Assoc([s[0]], t[..i - 1], Read(Plain, s[i..], attrs));
    } else {
      assert s[..i] == "" && s[i..] == s;
    }
  }

  lemma {:induction false} InsideUpTo(key: string, s: string, i: nat, attrs: Attributes)
    requires i <= |s| && ')' !in s[..i]
    ensures Read(Inside(key), s, attrs) == Read(Inside(key + s[..i]), s[i..], attrs)
    decreases |s|
  {
    if i == 0 {
      assert key + s[..i] == key;
    } else {
      var t := s[1..];
      Shifted(s, i);
      InsideUpTo(key + [s[0]], t, i - 1, attrs);
      assert key + [s[0]] + t[..i - 1] == key + s[..i];
    }
  }

  lemma NothingInside(key: string, s: string, attrs: Attributes)
    requires ')' !in s
    ensures Read(Inside(key), s, attrs) == "$(" + key + s
  {
    assert s[..|s|] == s;
    InsideUpTo(key, s, |s|, attrs);
  }

  // ---------- The program's loop ----------

  /** strings.Index(s, "$(") */
  method IndexOpen(s: string) returns (i: int)
    ensures -1 <= i < |s|
    ensures i >= 0 ==> OpensAt(s, i) && forall j :: 0 <= j < i ==> !OpensAt(s, j)
    ensures i < 0 ==> forall j :: 0 <= j < |s| ==> !OpensAt(s, j)
  {
    i := 0;
    while i < |s|
      invariant 0 <= i <= |s| && forall j :: 0 <= j < i ==> !OpensAt(s, j)
    {
      if OpensAt(s, i) {
        return;
      }
      i := i + 1;
    }
    i := -1;
  }

  /** strings.Index(s, ")") */
  method IndexClose(s: string) returns (i: int)
    ensures -1 <= i < |s|
    ensures i >= 0 ==> s[i] == ')' && ')' !in s[..i]
    ensures i < 0 ==> ')' !in s
  {
    i := 0;
    while i < |s|
      invariant 0 <= i <= |s| && ')' !in s[..i]
    {
      if s[i] == ')' {
        return;
      }
      i := i + 1;
    }
    i := -1;
  }

  /** The search-and-cut loop gives what the one-pass reader gives: values put in are never read again, and a
      reference that is not closed stays. */
  method ExpandAttributes(text: string, attrs: Attributes) returns (result: string)
    ensures result == Expand(text, attrs)
  {
    result := "";
    var s := text;
    while true
      invariant Expand(text, attrs) == result + Read(Plain, s, attrs)
      decreases |s|
    {
      var idx := IndexOpen(s);
      if idx < 0 {
        PlainUpTo(s, |s|, attrs);
        assert s[..|s|] == s && s[|s|..] == "";
        return result + s;
      }
      ghost var before, t := result, s;
      result := result + s[..idx];
      s := s[idx..];
      var close := IndexClose(s);
      if close < 0 {
        NothingCloses(t, idx, attrs);
        Assoc(before, t[..idx], s);
        return result + s;
      }
      var key := s[2..close];
      Turn(t, idx, close, attrs);
      Assoc(before, t[..idx], Get(attrs, key));
      Assoc(before, t[..idx] + Get(attrs, key), Read(Plain, s[close + 1..], attrs));
      result := result + Get(attrs, key);
      s := s[close + 1..];
    }
  }

  /** One turn of the loop: text up to the reference, the value, and the rest still to be read. */
  lemma Turn(s: string, i: nat, close: nat, attrs: Attributes)
    requires OpensAt(s, i) && forall j :: 0 <= j < i ==> !OpensAt(s, j)
    requires close < |s[i..]| && s[i..][close] == ')' && ')' !in s[i..][..close]
    ensures 2 <= close
    ensures Read(Plain, s, attrs)
         == (s[..i] + Get(attrs, s[i..][2..close])) + Read(Plain, s[i..][close + 1..], attrs)
  {
    var t := s[i..];
    assert t[0] == '$' && t[1] == '(';
    PlainUpTo(s, i, attrs);
    ReferenceOpens(t, attrs);
    ReferenceCloses(t, close, attrs);
    Assoc(s[..i], Get(attrs, t[2..close]), Read(Plain, t[close + 1..], attrs));
  }

  lemma NothingCloses(s: string, i: nat, attrs: Attributes)
    requires OpensAt(s, i) && (forall j :: 0 <= j < i ==> !OpensAt(s, j)) && ')' !in s[i..]
    ensures Read(Plain, s, attrs) == s[..i] + s[i..]
  {
    var t := s[i..];
    PlainUpTo(s, i, attrs);
    ReferenceOpens(t, attrs);
    UnclosedStays(t, attrs);
  }

  lemma UnclosedStays(t: string, attrs: Attributes)
    requires OpensAt(t, 0) && ')' !in t
    ensures Read(Inside(""), t[2..], attrs) == t
  {
    NothingInside("", t[2..], attrs);
    assert "$(" + "" == "$(" && t[..2] == "$(" && t == t[..2] + t[2..];
  }

  lemma ReferenceOpens(s: string, attrs: Attributes)
    requires OpensAt(s, 0)
    ensures Read(Plain, s, attrs) == Read(Inside(""), s[2..], attrs)
  {
    assert s[1..][1..] == s[2..];
  }

  lemma ReferenceCloses(s: string, i: nat, attrs: Attributes)
    requires OpensAt(s, 0) && 2 <= i < |s| && s[i] == ')' && ')' !in s[..i]
    ensures Read(Inside(""), s[2..], attrs) == Get(attrs, s[2..i]) + Read(Plain, s[i + 1..], attrs)
  {
    var t := s[2..];
    assert t[..i - 2] == s[2..i] && t[i - 2..] == s[i..];
    InsideUpTo("", t, i - 2, attrs);
    assert "" + t[..i - 2] == s[2..i];
    assert s[i..][1..] == s[i + 1..];
  }

  /** A reference after text without any is replaced by the value of its key, and the value is not read again. */
  lemma ReferenceIsReplaced(a: string, key: string, b: string, attrs: Attributes)
    requires (forall j :: 0 <= j < |a| ==> !OpensAt(a, j)) && ')' !in key
    ensures Expand(a + "$(" + key + ")" + b, attrs) == a + (if key in attrs then attrs[key] else "") + Expand(b, attrs)
  {
    var s := a + "$(" + key + ")" + b;
    var i, close := |a|, 2 + |key|;
    var t := s[i..];
    assert t == "$(" + key + ")" + b && s[..i] == a;
    forall j | 0 <= j < i ensures !OpensAt(s, j) {
      assert j + 1 < |a| ==> OpensAt(a, j) == OpensAt(s, j);
    }
    assert t[close] == ')' && t[..close] == "$(" + key && t[2..close] == key && t[close + 1..] == b;
    Turn(s, i, close, attrs);
  }

  // ---------- Splitting a text ----------

  /** No reference is closed across the boundary between a and b. */
  predicate SplitsCleanly(a: string, b: string) {
    var m := ModeAfter(Plain, a);
    m.Plain? || ')' !in b || (m.Dollar? && b[0] != '(')
  }

  lemma OwedGrows(m: Mode, c: char, attrs: Attributes)
    requires c != ')'
    ensures Emits(m, c, attrs) + Owed(After(m, c)) == Owed(m) + [c]
  {
  }

  lemma {:induction false} UnclosedIsVerbatim(m: Mode, b: string, attrs: Attributes)
    requires ')' !in b
    ensures Read(m, b, attrs) == Owed(m) + b
    decreases |b|
  {
    if b == "" {
    } else {
      var n := After(m, b[0]);
      UnclosedIsVerbatim(n, b[1..], attrs);
      OwedGrows(m, b[0], attrs);
      Assoc(Emits(m, b[0], attrs), Owed(n), b[1..]);
      Assoc(Owed(m), [b[0]], b[1..]);
      assert b == [b[0]] + b[1..];
    }
  }

  /** Once a ')' has been read the reader is in plain text. */
  lemma {:induction false} CloseEndsPlain(m: Mode, k: string)
    ensures ModeAfter(m, k + ")") == Plain
    decreases |k|
  {
    if k == "" {
      assert k + ")" == ")" && ")"[1..] == "";
    } else {
      assert (k + ")")[0] == k[0] && (k + ")")[1..] == k[1..] + ")";
      CloseEndsPlain(After(m, k[0]), k[1..]);
    }
  }

  lemma {:induction false} FirstClose(b: string) returns (i: nat)
    requires ')' in b
    ensures i < |b| && b[i] == ')' && ')' !in b[..i]
    decreases |b|
  {
    if b[0] == ')' {
      i := 0;
    } else {
      i := FirstClose(b[1..]);
      assert b[..i + 1] == [b[0]] + b[1..][..i];
      i := i + 1;
    }
  }

  /** With no attributes, closing a reference that b did not open makes the text shorter than b and the opening. */
  lemma ClosingShortens(key: string, b: string)
    requires ')' in b
    ensures |Read(Inside(key), b, map[])| < |"$(" + key| + |Read(Plain, b, map[])|
  {
    var i := FirstClose(b);
    var k, r := b[..i], b[i + 1..];
    assert |Read(Plain, b, map[])| >= |Read(Plain, r, map[])| by {
      assert b == (k + ")") + r;
      CloseEndsPlain(Plain, k);
      ReadJoins(Plain, k + ")", r, map[]);
    }
    assert Read(Inside(key), b, map[]) == Read(Plain, r, map[]) by {
      InsideUpTo(key, b, i, map[]);
      assert b[i..][0] == ')' && b[i..][1..] == r;
    }
  }

  lemma CleanBoundary(m: Mode, b: string, attrs: Attributes)
    requires m.Plain? || ')' !in b || (m.Dollar? && b[0] != '(')
    ensures Read(m, b, attrs) == Owed(m) + Read(Plain, b, attrs)
  {
    if ')' !in b {
      UnclosedIsVerbatim(m, b, attrs);
      UnclosedIsVerbatim(Plain, b, attrs);
    } else if m.Dollar? {
      LoneDollar(b, attrs);
    }
  }

  lemma UncleanBoundary(m: Mode, b: string)
    requires ')' in b && !m.Plain? && (m.Dollar? ==> b[0] == '(')
    ensures |Read(m, b, map[])| < |Owed(m)| + |Read(Plain, b, map[])|
  {
    if m.Dollar? {
      assert Read(Plain, b, map[]) == "(" + Read(Plain, b[1..], map[]);
      ClosingShortens("", b[1..]);
    } else {
      ClosingShortens(m.key, b);
    }
  }

  /** For every choice of attributes, expansion works piece by piece if and only if the text is split where no
      reference is closed across the split. */
  lemma ExpandDistributesExactlyWhen(a: string, b: string)
    ensures (forall attrs :: Expand(a + b, attrs) == Expand(a, attrs) + Expand(b, attrs)) <==> SplitsCleanly(a, b)
  {
    var m := ModeAfter(Plain, a);
    if SplitsCleanly(a, b) {
      forall attrs ensures Expand(a + b, attrs) == Expand(a, attrs) + Expand(b, attrs) {
        ReadJoins(Plain, a, b, attrs);
        CleanBoundary(m, b, attrs);
        Assoc(Output(Plain, a, attrs), Owed(m), Read(Plain, b, attrs));
      }
    } else {
      UncleanBoundary(m, b);
      ReadJoins(Plain, a, b, map[]);
      assert |Expand(a + b, map[])| < |Expand(a, map[]) + Expand(b, map[])|;
    }
  }
}
