/**
 The psk line of a network block: how a passphrase is written, and how a line of the configuration
 file is cleaned, split and read.
 */
module PskLine {

  import opened Wrappers

  // ---- searching a text ----

  /** First occurrence of a character; the length if there is none. */
  function Find(s: string, c: char): (k: nat)
    ensures k <= |s| && (k < |s| ==> s[k] == c)
    ensures forall i :: 0 <= i < k ==> s[i] != c
  {
    if s == [] then 0 else if s[0] == c then 0 else 1 + Find(s[1..], c)
  }

  /** Last occurrence of a character; the length if there is none. */
  function FindLast(s: string, c: char): (k: nat)
    ensures k <= |s| && (k < |s| ==> s[k] == c && forall i :: k < i < |s| ==> s[i] != c)
    ensures k == |s| ==> forall i :: 0 <= i < |s| ==> s[i] != c
  {
    if s == [] then 0
    else if s[|s| - 1] == c then |s| - 1
    else
      var k := FindLast(s[..|s| - 1], c);
      if k == |s| - 1 then |s| else k
  }

  // ---- cleaning a line ----

  predicate Leading(c: char)
  {
    c == ' ' || c == '\t' || c == '\r'
  }

  predicate Trailing(c: char)
  {
    c == '\n' || c == ' ' || c == '\t' || c == '\r'
  }

  function SkipLeading(s: string): (r: string)
    ensures |r| <= |s| && (r != [] ==> !Leading(r[0]))
  {
    if s != [] && Leading(s[0]) then SkipLeading(s[1..]) else s
  }

  /** Where comments may begin: at the last double quote if there are two, else at the start. */
  function CommentFrom(t: string): (k: nat)
    ensures k <= |t|
  {
    var q := Find(t, '"');
    if q == |t| then 0
    else
      var l := FindLast(t[q + 1..], '"');
      if l == |t[q + 1..]| then 0 else q + 1 + l
  }

  function DropComment(t: string): (r: string)
    ensures r <= t
  {
    var from := CommentFrom(t);
    t[..from + Find(t[from..], '#')]
  }

  /** Trailing white space goes, but the first character always stays. */
  function TrimRight(t: string): (r: string)
    ensures r <= t
  {
    if |t| > 1 && Trailing(t[|t| - 1]) then TrimRight(t[..|t| - 1]) else t
  }

  /** What is left of a line; nothing of an empty or comment line. */
  function Clean(line: string): Option<string>
  {
    var t := SkipLeading(line);
    if t == [] || t[0] == '#' || t[0] == '\n' then None else Some(TrimRight(DropComment(t)))
  }

  // ---- cleaning in plain words ----

  /** No quoted text goes on behind the place: of two quotes, none is behind it. */
  ghost predicate Open(t: string, i: nat)
  {
    forall q, l :: 0 <= q < l < |t| && t[q] == '"' && t[l] == '"' ==> l < i
  }

  lemma OpenIs(t: string, i: nat)
    requires i < |t| && t[i] == '#'
    ensures Open(t, i) <==> CommentFrom(t) <= i
  {
    var q := Find(t, '"');
    if q < |t| {
      var rest := t[q + 1..];
      var l := FindLast(rest, '"');
      assert forall j :: q < j < |t| ==> t[j] == rest[j - q - 1];
      if l < |rest| {
        assert t[q] == '"' && t[q + 1 + l] == '"';
      }
    }
  }

  /** A comment starts at the first '#' that no quoted text surrounds. */
  lemma DropCommentIs(t: string, c: nat)
    requires c <= |t| && (c < |t| ==> t[c] == '#' && Open(t, c))
    requires forall i :: 0 <= i < c && t[i] == '#' ==> !Open(t, i)
    ensures DropComment(t) == t[..c]
  {
    var from := CommentFrom(t);
    var k := from + Find(t[from..], '#');
    assert k < |t| ==> t[k] == t[from..][k - from] == '#';
    assert forall i :: from <= i < k ==> t[i] == t[from..][i - from] != '#';
    if c < |t| {
      OpenIs(t, c);
    }
    if k < |t| {
      OpenIs(t, k);
    }
  }

  predicate White(c: char)
  {
    c in {' ', '\t', '\r'}
  }

  lemma {:induction false} SkipLeadingIs(line: string, k: nat)
    requires k <= |line| && (forall i :: 0 <= i < k ==> White(line[i])) && (k < |line| ==> !White(line[k]))
    ensures SkipLeading(line) == line[k..]
  {
    if k > 0 {
      SkipLeadingIs(line[1..], k - 1);
    }
  }

  lemma {:induction false} TrimRightIs(t: string, n: nat)
    requires 0 < n <= |t| && (forall i :: n <= i < |t| ==> White(t[i]) || t[i] == '\n')
    requires n == 1 || !(White(t[n - 1]) || t[n - 1] == '\n')
    ensures TrimRight(t) == t[..n]
  {
    if n < |t| {
      TrimRightIs(t[..|t| - 1], n);
      assert t[..|t| - 1][..n] == t[..n];
    } else {
      assert t[..n] == t;
    }
  }

  /** A line is passed over if there is only white space on it, or a '#' or a line end behind that. */
  lemma CleanNothing(lead: string, t: string)
    requires (forall i :: 0 <= i < |lead| ==> White(lead[i])) && (t == [] || t[0] == '#' || t[0] == '\n')
    ensures Clean(lead + t) == None
  {
    SkipLeadingIs(lead + t, |lead|);
    assert (lead + t)[|lead|..] == t;
  }

  /** Of any other line there is left what stands between the white space at its start and that at its
      end, or before a comment; the first character stays in any case. */
  lemma CleanIs(lead: string, t: string, c: nat, n: nat)
    requires (forall i :: 0 <= i < |lead| ==> White(lead[i])) && 0 < n <= c <= |t|
    requires !White(t[0]) && t[0] != '#' && t[0] != '\n'
    requires (c < |t| ==> t[c] == '#' && Open(t, c)) && forall i :: 0 <= i < c && t[i] == '#' ==> !Open(t, i)
    requires forall i :: n <= i < c ==> White(t[i]) || t[i] == '\n'
    requires n == 1 || !(White(t[n - 1]) || t[n - 1] == '\n')
    ensures Clean(lead + t) == Some(t[..n])
  {
    SkipLeadingIs(lead + t, |lead|);
    assert (lead + t)[|lead|..] == t;
    DropCommentIs(t, c);
    TrimRightIs(t[..c], n);
    assert t[..c][..n] == t[..n];
  }

  // ---- the loops ----

  /** Skip white space at the beginning of a line. */
  method SkipStart(line: string) returns (t: string)
    ensures t == SkipLeading(line)
  {
    var pos := 0;
    while pos < |line| && Leading(line[pos])
      invariant 0 <= pos <= |line|
      invariant SkipLeading(line[pos..]) == SkipLeading(line)
    {
      assert line[pos..][1..] == line[pos + 1..];
      pos := pos + 1;
    }
    return line[pos..];
  }

  /** Cut white space off the end of a line. */
  method CutEnd(t: string) returns (r: string)
    ensures r == TrimRight(t)
  {
    var end := |t|;
    assert t[..end] == t;
    while end > 1 && Trailing(t[end - 1])
      invariant 0 <= end <= |t|
      invariant TrimRight(t[..end]) == TrimRight(t)
    {
      assert t[..end][..end - 1] == t[..end - 1];
      end := end - 1;
    }
    return t[..end];
  }

  /** Where the text before a comment ends. */
  method CommentStart(t: string) returns (end: nat)
    ensures end <= |t| && t[..end] == DropComment(t)
  {
    var start := 0;
    var q := Find(t, '"');
    if q < |t| {
      var last := FindLast(t[q + 1..], '"');
      if last < |t[q + 1..]| {
        start := q + 1 + last;
      }
    }
    assert start == CommentFrom(t);
    end := start + Find(t[start..], '#');
  }

  /** The pointer loops that clean a line. */
  method CleanLine(line: string) returns (r: Option<string>)
    ensures r == Clean(line)
  {
    var t := SkipStart(line);
    if t == [] || t[0] == '#' || t[0] == '\n' {
      return None;
    }
    var end := CommentStart(t);
    var text := CutEnd(t[..end]);
    return Some(text);
  }

  /** The next line with something on it. */
  method GetLine(lines: seq<string>) returns (r: Option<string>, used: nat)
    ensures used <= |lines|
    ensures r.None? ==> used == |lines| && forall i :: 0 <= i < |lines| ==> Clean(lines[i]).None?
    ensures r.Some? ==> used > 0 && r == Clean(lines[used - 1])
                        && forall i :: 0 <= i < used - 1 ==> Clean(lines[i]).None?
  {
    used := 0;
    while used < |lines|
      invariant used <= |lines| && forall i :: 0 <= i < used ==> Clean(lines[i]).None?
    {
      r := CleanLine(lines[used]);
      used := used + 1;
      if r.Some? {
        return;
      }
    }
    r := None;
  }

  // ---- splitting and reading ----

  /** A field and its value; nothing if there is no '=' or if a quoted value is not closed. */
  function Split(text: string): Option<(string, string)>
  {
    var k := Find(text, '=');
    if k == |text| then None
    else
      var value := text[k + 1..];
      if value != [] && value[0] == '"' && Find(value[1..], '"') == |value[1..]| then None
      else Some((text[..k], value))
  }

  /** A line is split at its first '='. A value that opens a quote and has no other is refused. */
  lemma SplitIs(name: string, value: string)
    requires '=' !in name
    ensures var unclosed := value != [] && value[0] == '"' && forall i :: 1 <= i < |value| ==> value[i] != '"';
            Split(name + "=" + value) == if unclosed then None else Some((name, value))
  {
    var text := name + "=" + value;
    assert text[|name|] == '=' && forall i :: 0 <= i < |name| ==> text[i] == name[i];
    assert Find(text, '=') == |name|;
    assert text[|name| + 1..] == value && text[..|name|] == name;
    if value != [] {
      assert forall i :: 1 <= i < |value| ==> value[i] == value[1..][i - 1];
    }
  }

  predicate HasControl(s: string)
  {
    exists i :: 0 <= i < |s| && (s[i] < ' ' || s[i] == 127 as char)
  }

  datatype PskResult = Invalid | Unchanged | Passphrase(text: string) | External(name: string) | Raw(hex: string)

  predicate IsHex(c: char)
  {
    '0' <= c <= '9' || 'a' <= c <= 'f' || 'A' <= c <= 'F'
  }

  /** What a psk value does to a network whose passphrase is the given one. */
  function ParsePsk(value: string, current: Option<string>): PskResult
  {
    if "ext:" <= value then External(value[4..])
    else if value != [] && value[0] == '"' then
      var v := value[1..];
      var pass := v[..FindLast(v, '"')];
      if |pass| < 8 || |pass| > 63 || HasControl(pass) then Invalid
      else if current == Some(pass) then Unchanged
      else Passphrase(pass)
    else if |value| == 64 && forall i :: 0 <= i < 64 ==> IsHex(value[i]) then Raw(value)
    else Invalid
  }

  /** The passphrase of the network after the value was read; none if it is refused or another kind of key. */
  function After(r: PskResult, current: Option<string>): Option<string>
  {
    match r
    case Passphrase(text) => Some(text)
    case Unchanged => current
    case Invalid => current
    case External(_) => None
    case Raw(_) => None
  }

  // ---- writing, then reading ----

  /** The line written for a network with a passphrase. */
  function PskText(pass: string): string
  {
    "\tpsk=" + Quoted(pass) + "\n"
  }

  function Quoted(pass: string): string
  {
    "\"" + pass + "\""
  }

  /** What may be a passphrase. */
  predicate Usable(pass: string)
  {
    8 <= |pass| <= 63 && forall i :: 0 <= i < |pass| ==> 32 <= pass[i] as int && pass[i] as int != 127
  }

  lemma IsLast(s: string, c: char, k: nat)
    requires k < |s| && s[k] == c && forall i :: k < i < |s| ==> s[i] != c
    ensures FindLast(s, c) == k
  {
  }

  lemma WrittenLineCleans(pass: string)
    ensures Clean(PskText(pass)) == Some("psk=" + Quoted(pass))
  {
    var text := "psk=" + Quoted(pass);
    var t, last := text + "\n", |text| - 1;
    assert t[0] == 'p' && t[4] == '"' && t[last] == '"' && t[last + 1] == '\n';
    forall i | 0 <= i < |t| && t[i] == '#'
      ensures !Open(t, i)
    {
      assert 4 < last && i < last;
    }
    CleanIs("\t", t, |t|, |text|);
    assert "\t" + t == PskText(pass) && t[..|text|] == text;
  }

  lemma WrittenLineSplits(pass: string)
    ensures Split("psk=" + Quoted(pass)) == Some(("psk", Quoted(pass)))
  {
    var value := Quoted(pass);
    assert value[0] == '"' && value[1 + |pass|] == '"';
    SplitIs("psk", value);
    assert "psk" + "=" + value == "psk=" + value;
  }

  lemma QuotedReads(pass: string, current: Option<string>)
    requires Usable(pass)
    ensures After(ParsePsk(Quoted(pass), current), current) == Some(pass)
  {
    var v := Quoted(pass)[1..];
    assert |v| == |pass| + 1 && v[|pass|] == '"';
    IsLast(v, '"', |pass|);
    assert v[..|pass|] == pass;
    assert Quoted(pass)[0] == '"' && !("ext:" <= Quoted(pass));
  }

  /** The passphrase of a network after a line of its block was read, if it is a psk line. */
  function ReadPskLine(line: string, current: Option<string>): Option<string>
  {
    match Clean(line)
    case None => None
    case Some(text) =>
      match Split(text)
      case None => None
      case Some((name, value)) => if name == "psk" then After(ParsePsk(value, current), current) else None
  }

  /**
   A passphrase that is written to the file and read again is the same passphrase, whatever quotes, '#', '='
   or blanks it has, and whatever passphrase the network had before.
   */
  lemma PassphraseSurvives(pass: string, current: Option<string>)
    requires Usable(pass)
    ensures ReadPskLine(PskText(pass), current) == Some(pass)
  {
    WrittenLineCleans(pass);
    WrittenLineSplits(pass);
    QuotedReads(pass, current);
  }

  /** Nothing but a usable passphrase is ever taken from a quoted value. */
  lemma OnlyUsable(value: string, current: Option<string>)
    requires current.Some? ==> Usable(current.value)
    ensures var after := After(ParsePsk(value, current), current); after.Some? ==> Usable(after.value)
  {
  }
}
