/**
 * `extract_sender_name` in app.py: the display name of a `From` header value.
 * The source matches `^(.*?)\s*<([^>]+)>$`, a loose form of the `name-addr`
 * of section 3.4 of RFC 5322, then trims the name, drops one pair of enclosing
 * double quotes, and falls back to the address or to the whole input. Here the
 * regular expression is an explicit search, proved to pick the match the lazy
 * group picks.
 */
module SenderName {
  import opened Wrappers

  /** Whitespace as `str.strip()` and `\s` see it, on the ASCII range. */
  predicate IsSpace(c: char) {
    c == ' ' || c == '\t' || c == '\n' || c == '\r' || c == '\U{0B}' || c == '\U{0C}'
    || ('\U{1C}' <= c <= '\U{1F}')
  }

  predicate AllSpace(s: string) {
    forall i | 0 <= i < |s| :: IsSpace(s[i])
  }

  /** The number of leading whitespace characters. */
  function Leading(s: string): (n: nat)
    ensures n <= |s| && AllSpace(s[..n])
    ensures n < |s| ==> !IsSpace(s[n])
  {
    if |s| > 0 && IsSpace(s[0]) then
      var n := 1 + Leading(s[1..]);
      assert s[..n] == [s[0]] + s[1..][..n - 1];
      n
    else 0
  }

  /** The number of trailing whitespace characters. */
  function Trailing(s: string): (n: nat)
    ensures n <= |s| && AllSpace(s[|s| - n..])
    ensures n < |s| ==> !IsSpace(s[|s| - n - 1])
  {
    if |s| > 0 && IsSpace(s[|s| - 1]) then
      var n := 1 + Trailing(s[..|s| - 1]);
      assert s[|s| - n..] == s[..|s| - 1][|s| - n..] + [s[|s| - 1]];
      n
    else 0
  }

  /** `str.strip()`: the longest infix that neither starts nor ends with whitespace. */
  function Strip(s: string): (r: string)
    ensures r == [] <==> AllSpace(s)
    ensures r != [] ==> !IsSpace(r[0]) && !IsSpace(r[|r| - 1])
    ensures Leading(s) + |r| <= |s| && r == s[Leading(s)..Leading(s) + |r|]
    ensures AllSpace(s[Leading(s) + |r|..])
  {
    var a := Leading(s);
    if a == |s| then
      assert s[..a] == s;
      []
    else
      var rest := s[a..];
      var b := Trailing(rest);
      assert !AllSpace(s) by { assert !IsSpace(s[a]); }
      assert s[a + |rest| - b..] == rest[|rest| - b..];
      rest[..|rest| - b]
  }

  // ---------------------------------------------------------------------------
  // The regular expression `^(.*?)\s*<([^>]+)>$`.

  /**
   * The `<` at `j` can open the address: the string ends with `>`, and what
   * lies between is non-empty and free of `>`.
   */
  predicate OpensAddress(s: string, j: nat) {
    0 < |s| && s[|s| - 1] == '>' && j + 1 < |s| - 1 && s[j] == '<'
    && forall t | j < t < |s| - 1 :: s[t] != '>'
  }

  /** The first index from `j` on that opens the address. */
  function FirstOpener(s: string, j: nat): (r: Option<nat>)
    ensures r.Some? ==> j <= r.value && OpensAddress(s, r.value)
    ensures forall t | j <= t && (r.None? || t < r.value) :: !OpensAddress(s, t)
    decreases |s| - j
  {
    if j + 2 >= |s| then None
    else if OpensAddress(s, j) then Some(j)
    else FirstOpener(s, j + 1)
  }

  /** Where the whitespace run that ends just before `j` starts. */
  function SpaceRunStart(s: string, j: nat): (k: nat)
    requires j <= |s|
    ensures k <= j && AllSpace(s[k..j])
    ensures k == 0 || !IsSpace(s[k - 1])
    decreases j
  {
    if j > 0 && IsSpace(s[j - 1]) then
      var k := SpaceRunStart(s, j - 1);
      assert s[k..j] == s[k..j - 1] + [s[j - 1]];
      k
    else j
  }

  /** The two groups of a match. */
  datatype Match = Match(name: string, address: string)

  /** `re.match(r'^(.*?)\s*<([^>]+)>$', s)`. */
  function MatchSender(s: string): (r: Option<Match>)
    ensures r.None? <==> FirstOpener(s, 0).None?
    ensures r.Some? ==> r.value.address != [] && NoChar(r.value.address, '>')
  {
    match FirstOpener(s, 0)
    case None => None
    case Some(j) =>
      var k := SpaceRunStart(s, j);
      Some(Match(s[..k], s[j + 1..|s| - 1]))
  }

  /** Group 1 may end at `k`: whitespace then a `<` that opens the address follow. */
  ghost predicate GroupOneEndsAt(s: string, k: nat) {
    exists j | k <= j < |s| :: AllSpace(s[k..j]) && OpensAddress(s, j)
  }

  /**
   * `MatchSender` is the regular expression: it fails exactly when no split
   * exists, and when it succeeds its group 1 is the shortest that admits one
   * (the lazy `.*?`), `\s*` takes the rest of the whitespace, and group 2 is
   * everything between that `<` and the final `>`.
   */
  lemma MatchSenderIsRegex(s: string)
    ensures MatchSender(s).None? <==> forall k | 0 <= k <= |s| :: !GroupOneEndsAt(s, k)
    ensures MatchSender(s).Some? ==>
      var m := MatchSender(s).value;
      var k, j := |m.name|, |s| - |m.address| - 2;
      k <= j && GroupOneEndsAt(s, k)
      && (forall k' | 0 <= k' < k :: !GroupOneEndsAt(s, k'))
      && s == m.name + s[k..j] + ['<'] + m.address + ['>']
      && AllSpace(s[k..j]) && m.address != []
      && NoChar(m.address, '>')
  {
    match FirstOpener(s, 0)
    case None =>
    case Some(j) =>
      var k := SpaceRunStart(s, j);
      assert GroupOneEndsAt(s, k);
      ShortestGroupOne(s, j, k);
      MatchShape(s, j, k);
  }

  /** No shorter group 1 works: the `<` must come at or after the first opener. */
  lemma ShortestGroupOne(s: string, j: nat, k: nat)
    requires FirstOpener(s, 0) == Some(j) && k == SpaceRunStart(s, j)
    ensures forall k' | 0 <= k' < k :: !GroupOneEndsAt(s, k')
  {
    forall k', j' | 0 <= k' < k && k' <= j' < |s|
      ensures !(AllSpace(s[k'..j']) && OpensAddress(s, j'))
    {
      if j' == j {
        assert s[k'..j'][k - 1 - k'] == s[k - 1];
      } else if j' > j {
        assert s[k'..j'][j - k'] == s[j];
      }
    }
  }

  /** The input is group 1, whitespace, `<`, group 2 and `>`. */
  lemma MatchShape(s: string, j: nat, k: nat)
    requires OpensAddress(s, j) && k <= j && AllSpace(s[k..j])
    ensures s == s[..k] + s[k..j] + ['<'] + s[j + 1..|s| - 1] + ['>']
    ensures NoChar(s[j + 1..|s| - 1], '>')
  {
    assert s == s[..k] + s[k..j] + ['<'] + s[j + 1..|s| - 1] + ['>'];
    var address := s[j + 1..|s| - 1];
    forall t | 0 <= t < |address| ensures address[t] != '>' {
      assert address[t] == s[j + 1 + t];
    }
  }

  // ---------------------------------------------------------------------------
  // The name.

  /** Drops one leading and one trailing `"` when both are there (`name[1:-1]`). */
  function Unquote(name: string): (r: string)
    ensures |name| >= 2 && name[0] == '"' && name[|name| - 1] == '"' ==> r == name[1..|name| - 1]
    ensures name == "\"" ==> r == ""
    ensures !(|name| >= 1 && name[0] == '"' && name[|name| - 1] == '"') ==> r == name
  {
    if |name| >= 1 && name[0] == '"' && name[|name| - 1] == '"' then
      if |name| == 1 then "" else name[1..|name| - 1]
    else name
  }

  /**
   * `extract_sender_name`: the input itself when it does not match; otherwise
   * the trimmed, unquoted name, or the address when that name is empty, so a
   * matched input never gives the empty string.
   */
  function ExtractSenderName(sender: string): (r: string)
    ensures MatchSender(sender).None? ==> r == sender
    ensures (sender == [] || sender[|sender| - 1] != '>') ==> r == sender
    ensures MatchSender(sender).Some? && Unquote(Strip(MatchSender(sender).value.name)) != "" ==>
      r == Unquote(Strip(MatchSender(sender).value.name))
    ensures MatchSender(sender).Some? && Unquote(Strip(MatchSender(sender).value.name)) == "" ==>
      r == MatchSender(sender).value.address
    ensures MatchSender(sender).Some? ==> r != ""
  {
    match MatchSender(sender)
    case None => sender
    case Some(m) =>
      var name := Unquote(Strip(m.name));
      if name != "" then name else m.address
  }

  // ---------------------------------------------------------------------------
  // Formatting a name and an address, then extracting the name.

  predicate NoChar(s: string, c: char) {
    forall i | 0 <= i < |s| :: s[i] != c
  }

  /** A string that `str.strip()` leaves alone. */
  predicate Trimmed(n: string) {
    n != [] && !IsSpace(n[0]) && !IsSpace(n[|n| - 1])
  }

  lemma StripTrimmed(n: string)
    requires Trimmed(n)
    ensures Strip(n) == n
  {
    assert Leading(n) == 0;
  }

  /** The search settles on the opener `j` and on the run start `k` before it. */
  lemma MatchAt(s: string, k: nat, j: nat)
    requires k <= j < |s| && OpensAddress(s, j) && AllSpace(s[k..j])
    requires k == 0 || !IsSpace(s[k - 1])
    requires forall t | 0 <= t < j :: s[t] != '<'
    ensures MatchSender(s) == Some(Match(s[..k], s[j + 1..|s| - 1]))
  {
    var v := FirstOpener(s, 0);
    assert v == Some(j);
  }

  /** A trimmed group 1 before ` <address>` is what the name is taken from. */
  lemma ExtractFormatted(g: string, a: string)
    requires Trimmed(g) && NoChar(g, '<')
    requires a != [] && NoChar(a, '>')
    ensures ExtractSenderName(g + " <" + a + ">") == if Unquote(g) != "" then Unquote(g) else a
  {
    var s := g + " <" + a + ">";
    assert s[..|g|] == g && s[|g|..|g| + 1] == " " && s[|g| + 2..|s| - 1] == a;
    forall t | |g| + 1 < t < |s| - 1 ensures s[t] != '>' {
      assert s[t] == a[t - |g| - 2];
    }
    MatchAt(s, |g|, |g| + 1);
    StripTrimmed(g);
  }

  /** `Name <address>` gives back the name. */
  lemma FormatThenExtract(n: string, a: string)
    requires Trimmed(n) && NoChar(n, '<') && !(n[0] == '"' && n[|n| - 1] == '"')
    requires a != [] && NoChar(a, '>')
    ensures ExtractSenderName(n + " <" + a + ">") == n
  {
    ExtractFormatted(n, a);
  }

  /** `"Name" <address>` gives back the name without its quotes. */
  lemma QuotedFormatThenExtract(n: string, a: string)
    requires n != [] && NoChar(n, '<')
    requires a != [] && NoChar(a, '>')
    ensures ExtractSenderName("\"" + n + "\"" + " <" + a + ">") == n
  {
    var q := "\"" + n + "\"";
    forall t | 0 <= t < |q| ensures q[t] != '<' {
      if 0 < t < |q| - 1 { assert q[t] == n[t - 1]; }
    }
    assert q[1..|q| - 1] == n;
    ExtractFormatted(q, a);
  }

  /** `<address>`, with or without whitespace before it, gives the address. */
  lemma AddressOnly(w: string, a: string)
    requires AllSpace(w)
    requires a != [] && NoChar(a, '>')
    ensures ExtractSenderName(w + "<" + a + ">") == a
  {
    var s := w + "<" + a + ">";
    assert s[..|w|] == w && s[|w| + 1..|s| - 1] == a;
    forall t | |w| < t < |s| - 1 ensures s[t] != '>' {
      assert s[t] == a[t - |w| - 1];
    }
    MatchAt(s, 0, |w|);
    assert s[..0] == [];
  }

  /** A name that is a lone `"` or an empty `""` unquotes to nothing: the address is used. */
  lemma BareQuotesGiveAddress(a: string)
    requires a != [] && NoChar(a, '>')
    ensures ExtractSenderName("\"" + " <" + a + ">") == a
    ensures ExtractSenderName("\"\"" + " <" + a + ">") == a
  {
    ExtractFormatted("\"", a);
    ExtractFormatted("\"\"", a);
  }
}
