/**
 The text protocol over which recorded CSI samples are replayed to the device: what a line,
 a frame and a field are, and what one frame means. No buffers and no chunks appear here;
 ReplayReceiver.dfy proves the device's buffered loop against these definitions.
 */
module ReplayWire {
  import opened Options
  import opened Sequences
  import Base64

  const MARKER := "CSI_DATA"
  const RX_BUFFER_SIZE := 1460
  const MIN_FRAME := 250
  const FIELDS := 28
  const MAX_PAYLOAD := 104
  const NUL := '\0'

  // ---------- searching (strstr, strchr) ----------

  predicate Without(s: string, c: char) { forall k | 0 <= k < |s| :: s[k] != c }

  /** The first index of `c` in `s`, or -1. */
  function FindChar(s: string, c: char): (r: int)
    ensures -1 <= r < |s|
    ensures r >= 0 ==> s[r] == c
    ensures forall k | 0 <= k < |s| && (r < 0 || k < r) :: s[k] != c
  {
    FindCharFrom(s, c, 0)
  }

  function FindCharFrom(s: string, c: char, i: nat): (r: int)
    requires i <= |s|
    ensures r == -1 || i <= r < |s|
    ensures r >= 0 ==> s[r] == c
    ensures forall k | i <= k < |s| && (r < 0 || k < r) :: s[k] != c
    decreases |s| - i
  {
    if i == |s| then -1
    else if s[i] == c then i
    else FindCharFrom(s, c, i + 1)
  }

  predicate OccursAt(s: string, p: string, k: int) {
    0 <= k && k + |p| <= |s| && s[k..k + |p|] == p
  }

  /** The first index at or after `i` at which `p` occurs in `s`, or -1. */
  function FindFrom(s: string, p: string, i: nat): (r: int)
    requires i <= |s|
    ensures r == -1 || (i <= r && OccursAt(s, p, r))
    ensures forall k | i <= k && (r < 0 || k < r) :: !OccursAt(s, p, k)
    decreases |s| - i
  {
    if OccursAt(s, p, i) then i
    else if i == |s| then -1
    else FindFrom(s, p, i + 1)
  }

  function FindText(s: string, p: string): (r: int)
    ensures r == -1 || OccursAt(s, p, r)
    ensures forall k | 0 <= k && (r < 0 || k < r) :: !OccursAt(s, p, k)
  {
    FindFrom(s, p, 0)
  }

  // ---------- lines ----------

  predicate OneLine(l: string) { Without(l, '\n') }

  predicate AllOneLine(ls: seq<string>) { forall k | 0 <= k < |ls| :: OneLine(ls[k]) }

  /** The complete lines of a byte stream, without their newlines. */
  function Lines(s: string): seq<string>
    decreases |s|
  {
    var e := FindChar(s, '\n');
    if e < 0 then [] else [s[..e]] + Lines(s[e + 1..])
  }

  /** What follows the last newline. */
  function Tail(s: string): string
    decreases |s|
  {
    var e := FindChar(s, '\n');
    if e < 0 then s else Tail(s[e + 1..])
  }

  function Unlines(ls: seq<string>): string {
    if ls == [] then "" else ls[0] + "\n" + Unlines(ls[1..])
  }

  lemma Regroup(l: string, u: string, c: string)
    ensures l + "\n" + u + c == l + "\n" + (u + c)
  {
  }

  lemma CutFirst(s: string) returns (l: string, rest: string)
    requires FindChar(s, '\n') >= 0
    ensures s == l + "\n" + rest && OneLine(l)
    ensures l == s[..FindChar(s, '\n')] && rest == s[FindChar(s, '\n') + 1..]
    ensures Lines(s) == [l] + Lines(rest) && Tail(s) == Tail(rest)
  {
    var e := FindChar(s, '\n');
    l, rest := s[..e], s[e + 1..];
  }

  lemma AllOneLineCons(l: string, ls: seq<string>)
    requires OneLine(l) && AllOneLine(ls)
    ensures AllOneLine([l] + ls)
  {
  }

  /** The pieces really are lines. */
  lemma {:induction false} LinesAreLines(s: string)
    ensures AllOneLine(Lines(s)) && OneLine(Tail(s))
    decreases |s|
  {
    hide FindChar, Lines, Tail;
    if FindChar(s, '\n') >= 0 {
      var l, rest := CutFirst(s);
      LinesAreLines(rest);
      AllOneLineCons(l, Lines(rest));
    } else {
      NoNewline(s);
    }
  }

  lemma NoNewline(s: string)
    requires FindChar(s, '\n') < 0
    ensures Lines(s) == [] && Tail(s) == s && OneLine(s)
  {
  }

  lemma UnlinesCons(l: string, ls: seq<string>)
    ensures Unlines([l] + ls) == l + "\n" + Unlines(ls)
  {
    assert ([l] + ls)[1..] == ls;
  }

  /** Cutting a stream into lines loses nothing. */
  lemma {:induction false} LinesPartition(s: string)
    ensures Unlines(Lines(s)) + Tail(s) == s
    decreases |s|
  {
    if FindChar(s, '\n') >= 0 {
      var l, rest := CutFirst(s);
      LinesPartition(rest);
      UnlinesCons(l, Lines(rest));
      Regroup(l, Unlines(Lines(rest)), Tail(rest));
    } else {
      assert Unlines(Lines(s)) + Tail(s) == Tail(s);
    }
  }

  /** A newline ends the line before it, whatever follows. */
  lemma FirstLine(l: string, c: string)
    requires OneLine(l)
    ensures FindChar(l + "\n" + c, '\n') == |l|
    ensures Lines(l + "\n" + c) == [l] + Lines(c)
    ensures Tail(l + "\n" + c) == Tail(c)
  {
    var s := l + "\n" + c;
    assert s[..|l|] == l && s[|l| + 1..] == c;
    assert s[|l|] == '\n' && forall k | 0 <= k < |l| :: s[k] == l[k];
  }

  lemma {:induction false} LinesOfUnlines(ls: seq<string>, c: string)
    requires AllOneLine(ls)
    ensures Lines(Unlines(ls) + c) == ls + Lines(c)
    ensures Tail(Unlines(ls) + c) == Tail(c)
  {
    hide Lines, Tail, FindChar;
    if ls == [] {
      assert Unlines(ls) + c == c;
      assert ls + Lines(c) == Lines(c);
    } else {
      var l, more := ls[0], ls[1..];
      var rest := Unlines(more) + c;
      assert Lines(rest) == more + Lines(c) && Tail(rest) == Tail(c) by { LinesOfUnlines(more, c); }
      assert Unlines(ls) + c == l + "\n" + rest by { Regroup(l, Unlines(more), c); }
      FirstLine(l, rest);
      assert [l] + more == ls;
      Assoc([l], more, Lines(c));
    }
  }

  lemma {:induction false} UnlinesConcat(a: seq<string>, b: seq<string>)
    ensures Unlines(a + b) == Unlines(a) + Unlines(b)
  {
    if a == [] {
      assert a + b == b;
    } else {
      UnlinesConcat(a[1..], b);
      assert (a + b)[1..] == a[1..] + b;
      Assoc(a[0] + "\n", Unlines(a[1..]), Unlines(b));
    }
  }

  // ---------- frames ----------

  /** The frame of a line, as a list of at most one: the text from the marker on, if that is
      longer than 250 bytes. */
  function Frame(line: string): seq<string> {
    var m := FindText(line, MARKER);
    if m >= 0 && |line| - m > MIN_FRAME then [line[m..]] else []
  }

  function FramesOf(ls: seq<string>): seq<string> {
    if ls == [] then [] else Frame(ls[0]) + FramesOf(ls[1..])
  }

  /** The frames of all complete lines of a byte stream. */
  function Frames(s: string): seq<string> { FramesOf(Lines(s)) }

  lemma FramesCons(l: string, ls: seq<string>)
    ensures FramesOf([l] + ls) == Frame(l) + FramesOf(ls)
  {
    assert ([l] + ls)[1..] == ls;
  }

  lemma {:induction false} FramesConcat(a: seq<string>, b: seq<string>)
    ensures FramesOf(a + b) == FramesOf(a) + FramesOf(b)
  {
    if a == [] {
      assert a + b == b;
    } else {
      FramesConcat(a[1..], b);
      assert (a + b)[1..] == a[1..] + b;
      Assoc(Frame(a[0]), FramesOf(a[1..]), FramesOf(b));
    }
  }

  /** A frame needs more than 250 bytes, so shorter text holds none. */
  lemma {:induction false} ShortTextHasNoFrame(s: string)
    requires |s| <= MIN_FRAME
    ensures Frames(s) == []
    decreases |s|
  {
    var e := FindChar(s, '\n');
    if e >= 0 {
      ShortTextHasNoFrame(s[e + 1..]);
      assert Lines(s)[1..] == Lines(s[e + 1..]);
    }
  }

  /** Searching the whole buffer for the marker and cutting at the first newline finds the
      frame of the first line and nothing else. */
  lemma MarkerInFirstLine(c: string)
    requires FindChar(c, '\n') >= 0
    ensures var b, e := FindText(c, MARKER), FindChar(c, '\n');
            Frame(c[..e]) == if b >= 0 && e - b > MIN_FRAME then [c[b..e]] else []
  {
    var b, e := FindText(c, MARKER), FindChar(c, '\n');
    var m := FindText(c[..e], MARKER);
    if m >= 0 {
      assert c[..e][m..m + |MARKER|] == c[m..m + |MARKER|];
      assert OccursAt(c, MARKER, m);
    }
    if b >= 0 && e - b > MIN_FRAME {
      assert c[..e][b..b + |MARKER|] == c[b..b + |MARKER|];
      assert OccursAt(c[..e], MARKER, b);
      assert m == b;
      assert c[..e][m..] == c[b..e];
    } else if m >= 0 {
      assert b <= m;
    }
  }

  // ---------- fields (strtok) ----------

  predicate Field(f: string) { f != "" && Without(f, ',') }

  /** The maximal comma-free stretches of `s`, in order: what repeated `strtok` calls return. */
  function Tokens(s: string): (ts: seq<string>)
    ensures forall k | 0 <= k < |ts| :: Field(ts[k])
    decreases |s|
  {
    if s == "" then []
    else if s[0] == ',' then Tokens(s[1..])
    else
      var e := FindChar(s, ',');
      if e < 0 then [s] else [s[..e]] + Tokens(s[e + 1..])
  }

  function Join(fs: seq<string>): string {
    if fs == [] then ""
    else if |fs| == 1 then fs[0]
    else fs[0] + "," + Join(fs[1..])
  }

  lemma TokensOfCons(f: string, s: string)
    requires Field(f)
    ensures Tokens(f + "," + s) == [f] + Tokens(s)
  {
    var t := f + "," + s;
    assert t[..|f|] == f && t[|f| + 1..] == s;
    assert t[|f|] == ',' && forall k | 0 <= k < |f| :: t[k] == f[k];
  }

  lemma JoinCons(f: string, fs: seq<string>)
    requires fs != []
    ensures Join([f] + fs) == f + "," + Join(fs)
  {
    assert ([f] + fs)[1..] == fs;
  }

  function NonEmpty(fs: seq<string>): seq<string> {
    if fs == [] then [] else (if fs[0] == "" then [] else [fs[0]]) + NonEmpty(fs[1..])
  }

  /** Splitting a text finds the non-empty ones of the fields it was joined from, in order. */
  lemma {:induction false} TokensOfAnyJoin(fs: seq<string>)
    requires forall k | 0 <= k < |fs| :: Without(fs[k], ',')
    ensures Tokens(Join(fs)) == NonEmpty(fs)
  {
    hide FindChar;
    if |fs| > 1 {
      var f, more := fs[0], fs[1..];
      assert fs == [f] + more;
      JoinCons(f, more);
      TokensOfAnyJoin(more);
      if f == "" {
        assert (f + "," + Join(more))[1..] == Join(more);
      } else {
        TokensOfCons(f, Join(more));
      }
    } else if |fs| == 1 {
      assert NonEmpty(fs) == (if fs[0] == "" then [] else [fs[0]]) + [];
    }
  }

  /** And every text is joined from fields without commas. */
  lemma {:induction false} EveryTextIsJoined(s: string) returns (fs: seq<string>)
    ensures fs != [] && s == Join(fs) && forall k | 0 <= k < |fs| :: Without(fs[k], ',')
    decreases |s|
  {
    var e := FindChar(s, ',');
    if e < 0 {
      fs := [s];
    } else {
      var more := EveryTextIsJoined(s[e + 1..]);
      JoinCons(s[..e], more);
      fs := [s[..e]] + more;
      assert s == s[..e] + "," + s[e + 1..];
    }
  }

  lemma {:induction false} NonEmptyAll(fs: seq<string>, last: string)
    requires forall k | 0 <= k < |fs| :: fs[k] != ""
    ensures NonEmpty(fs + [last]) == if last == "" then fs else fs + [last]
  {
    if fs == [] {
      assert (fs + [last])[1..] == [];
    } else {
      NonEmptyAll(fs[1..], last);
      assert (fs + [last])[1..] == fs[1..] + [last];
    }
  }

  /** So splitting undoes joining, except that an empty last field leaves no token. */
  lemma TokensOfJoin(fs: seq<string>, last: string)
    requires forall k | 0 <= k < |fs| :: Field(fs[k])
    requires Without(last, ',')
    ensures Tokens(Join(fs + [last])) == if last == "" then fs else fs + [last]
  {
    TokensOfAnyJoin(fs + [last]);
    NonEmptyAll(fs, last);
  }

  // ---------- numbers ----------

  predicate IsDigit(c: char) { '0' <= c <= '9' }

  function DigitValue(c: char): int
    requires IsDigit(c)
  {
    c as int - '0' as int
  }

  /** Decimal text of a natural number, as `str` and `%u` write it. */
  function Decimal(n: nat): (s: string)
    ensures s != "" && forall k | 0 <= k < |s| :: IsDigit(s[k])
  {
    var last := [(n % 10 + '0' as int) as char];
    if n < 10 then last else Decimal(n / 10) + last
  }

  /** The number that the leading digits of `s` spell, continuing from `acc`. */
  function DigitsValue(s: string, acc: int): int {
    if s == "" || !IsDigit(s[0]) then acc
    else DigitsValue(s[1..], 10 * acc + DigitValue(s[0]))
  }

  /** C's `isspace`: blank, tab, newline, vertical tab, form feed, carriage return. */
  predicate IsSpace(c: char) { c == ' ' || 9 <= c as int <= 13 }

  /** C's `atoi`: white space, an optional sign, digits; the rest is ignored. */
  function Atoi(s: string): int {
    if s == "" then 0
    else if IsSpace(s[0]) then Atoi(s[1..])
    else if s[0] == '-' then -DigitsValue(s[1..], 0)
    else if s[0] == '+' then DigitsValue(s[1..], 0)
    else DigitsValue(s, 0)
  }

  lemma {:induction false} DigitsValueAppend(s: string, c: char, acc: int)
    requires (forall k | 0 <= k < |s| :: IsDigit(s[k])) && IsDigit(c)
    ensures DigitsValue(s + [c], acc) == 10 * DigitsValue(s, acc) + DigitValue(c)
  {
    if s == "" {
      assert s + [c] == [c];
      assert [c][1..] == "";
    } else {
      assert (s + [c])[1..] == s[1..] + [c];
      DigitsValueAppend(s[1..], c, 10 * acc + DigitValue(s[0]));
    }
  }

  lemma {:induction false} DigitsValueOfDecimal(n: nat)
    ensures DigitsValue(Decimal(n), 0) == n
  {
    var c := (n % 10 + '0' as int) as char;
    if n < 10 {
      assert Decimal(n)[1..] == "";
    } else {
      DigitsValueOfDecimal(n / 10);
      DigitsValueAppend(Decimal(n / 10), c, 0);
    }
  }

  lemma AtoiOfDecimal(n: nat)
    ensures Atoi(Decimal(n)) == n
  {
    DigitsValueOfDecimal(n);
    var c := Decimal(n)[0];
    assert IsDigit(c);
    assert !IsSpace(c);
  }

  lemma {:induction false} DigitsValueStops(s: string, rest: string, acc: int)
    requires (forall k | 0 <= k < |s| :: IsDigit(s[k])) && (rest != "" ==> !IsDigit(rest[0]))
    ensures DigitsValue(s + rest, acc) == DigitsValue(s, acc)
  {
    if s == "" {
      assert s + rest == rest;
    } else {
      assert (s + rest)[1..] == s[1..] + rest;
      DigitsValueStops(s[1..], rest, 10 * acc + DigitValue(s[0]));
    }
  }

  /** White space before a number, its sign and whatever follows its digits are read as C reads them. */
  lemma {:induction false} AtoiReads(space: string, sign: string, n: nat, rest: string)
    requires (forall k | 0 <= k < |space| :: IsSpace(space[k])) && sign in ["", "-", "+"]
    requires rest != "" ==> !IsDigit(rest[0])
    ensures Atoi(space + (sign + (Decimal(n) + rest))) == (if sign == "-" then -1 else 1) * n
  {
    var number := Decimal(n) + rest;
    if space != "" {
      AtoiReads(space[1..], sign, n, rest);
      assert (space + (sign + number))[1..] == space[1..] + (sign + number);
    } else {
      assert space + (sign + number) == sign + number;
      DigitsValueOfDecimal(n);
      DigitsValueStops(Decimal(n), rest, 0);
      if sign == "" {
        assert sign + number == number && IsDigit(number[0]) && !IsSpace(number[0]);
      } else {
        assert (sign + number)[1..] == number;
      }
    }
  }

  // ---------- the meaning of a frame ----------

  /** What one frame hands to the radar library. `payload` is None when the decoder reports an
      error: bad text, or more than 104 bytes. */
  datatype Message = Message(timestamp: string, localTimestamp: int, payload: Option<seq<int>>)

  /** Undefined stands for C behaviour the program does not control: a frame with fewer than 28
      fields reads an uninitialised pointer, and a timestamp of 32 bytes or more overruns
      the context text it is copied to. What the device does after that is not certain either;
      ReplaySession.Certain cuts it off. */
  datatype Outcome = Pushed(msg: Message) | Undefined

  function Payload(text: string): Option<seq<int>> {
    match Base64.DecodeBin(text)
    case Some(p) => if |p| <= MAX_PAYLOAD then Some(p) else None
    case None => None
  }

  function Interpret(fields: seq<string>): Outcome {
    if |fields| < FIELDS || |fields[2]| > 31 then Undefined
    else Pushed(Message(fields[2], Atoi(fields[21]), Payload(fields[27])))
  }

  /** Only the first 28 fields matter. */
  lemma ExtraFieldsIgnored(fields: seq<string>)
    requires |fields| >= 28
    ensures Interpret(fields) == Interpret(fields[..28])
  {
  }

  function Analyse(frame: string): Outcome { Interpret(Tokens(frame)) }

  function AnalyseAll(frames: seq<string>): seq<Outcome> {
    seq(|frames|, k requires 0 <= k < |frames| => Analyse(frames[k]))
  }

  lemma AnalyseAllConcat(a: seq<string>, b: seq<string>)
    ensures AnalyseAll(a + b) == AnalyseAll(a) + AnalyseAll(b)
  {
  }
}
