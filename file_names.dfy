/** The file-name helpers of the I/O layer: trimming whitespace at both
    ends, removing one pair of enclosing quotes, and taking the extension. */
module FileNames {
  import opened CipherInterface

  /** The set `trimWhitespace` strips: space, tab, newline, carriage return,
      form feed and vertical tab. */
  const Whitespace: string := " \t\n\r\U{000C}\U{000B}"

  predicate IsWhitespace(c: char)
  {
    c in Whitespace
  }

  /** The string holds at least one character outside the whitespace set. */
  predicate HasVisible(s: string)
  {
    exists k :: 0 <= k < |s| && !IsWhitespace(s[k])
  }

  /** `find_last_not_of(whitespace)`: the last position holding a visible
      character, or None for `npos`. */
  function FindLastNotOf(s: string): (r: Option<nat>)
    ensures r.Some? ==> r.value < |s| && !IsWhitespace(s[r.value])
    ensures r.Some? ==> forall k :: r.value < k < |s| ==> IsWhitespace(s[k])
    ensures r.None? ==> forall k :: 0 <= k < |s| ==> IsWhitespace(s[k])
  {
    if s == [] then None
    else if !IsWhitespace(s[|s| - 1]) then Some(|s| - 1)
    else FindLastNotOf(s[..|s| - 1])
  }

  /** `find_first_not_of(whitespace)`: the first position holding a visible
      character, or None for `npos`. */
  function FindFirstNotOf(s: string): (r: Option<nat>)
    ensures r.Some? ==> r.value < |s| && !IsWhitespace(s[r.value])
    ensures r.Some? ==> forall k :: 0 <= k < r.value ==> IsWhitespace(s[k])
    ensures r.None? ==> forall k :: 0 <= k < |s| ==> IsWhitespace(s[k])
  {
    if s == [] then None
    else if !IsWhitespace(s[0]) then Some(0)
    else match FindFirstNotOf(s[1..])
      case None => None
      case Some(k) => Some(k + 1)
  }

  /** `find_last_of(c)`: the last position holding `c`, or None for `npos`. */
  function FindLastOf(s: string, c: char): (r: Option<nat>)
    ensures r.Some? ==> r.value < |s| && s[r.value] == c
    ensures r.Some? ==> forall k :: r.value < k < |s| ==> s[k] != c
    ensures r.None? ==> forall k :: 0 <= k < |s| ==> s[k] != c
  {
    if s == [] then None
    else if s[|s| - 1] == c then Some(|s| - 1)
    else FindLastOf(s[..|s| - 1], c)
  }

  /** Reference definition: drop whitespace from the end, one character at
      a time. */
  function DropTrailing(s: string): string
  {
    if s != [] && IsWhitespace(s[|s| - 1]) then DropTrailing(s[..|s| - 1]) else s
  }

  /** Reference definition: drop whitespace from the front, one character
      at a time. */
  function DropLeading(s: string): string
  {
    if s != [] && IsWhitespace(s[0]) then DropLeading(s[1..]) else s
  }

  /** What `trimWhitespace` leaves: both ends stripped, except that a string
      with no visible character (the empty string included) is kept as it
      is, because both erases are guarded by `npos` tests. */
  function Trim(s: string): string
  {
    if HasVisible(s) then DropLeading(DropTrailing(s)) else s
  }

  lemma {:induction false} DropTrailingAt(s: string, j: nat)
    requires j < |s| && !IsWhitespace(s[j])
    requires forall k :: j < k < |s| ==> IsWhitespace(s[k])
    ensures DropTrailing(s) == s[..j + 1]
    decreases |s|
  {
    if j + 1 < |s| {
      var t := s[..|s| - 1];
      assert IsWhitespace(s[|s| - 1]);
      DropTrailingAt(t, j);
      assert t[..j + 1] == s[..j + 1];
    } else {
      assert s[..j + 1] == s;
    }
  }

  lemma {:induction false} DropLeadingAt(s: string, i: nat)
    requires i < |s| && !IsWhitespace(s[i])
    requires forall k :: 0 <= k < i ==> IsWhitespace(s[k])
    ensures DropLeading(s) == s[i..]
    decreases i
  {
    if i > 0 {
      assert IsWhitespace(s[0]);
      DropLeadingAt(s[1..], i - 1);
      assert s[1..][i - 1..] == s[i..];
    }
  }

  /** When position i holds the first visible character and j the last,
      trimming leaves exactly the characters from i to j. */
  lemma TrimSpan(s: string, i: nat, j: nat)
    requires i < |s| && j < |s| && !IsWhitespace(s[i]) && !IsWhitespace(s[j])
    requires forall k :: 0 <= k < i ==> IsWhitespace(s[k])
    requires forall k :: j < k < |s| ==> IsWhitespace(s[k])
    ensures i <= j && Trim(s) == s[i..j + 1]
  {
    DropTrailingAt(s, j);
    DropLeadingAt(s[..j + 1], i);
    assert s[..j + 1][i..] == s[i..j + 1];
  }

  /** A trimmed string with a visible character begins and ends with one;
      one without is unchanged. */
  lemma TrimEdges(s: string)
    ensures HasVisible(s) ==> |Trim(s)| > 0 && !IsWhitespace(Trim(s)[0]) && !IsWhitespace(Trim(s)[|Trim(s)| - 1])
    ensures !HasVisible(s) ==> Trim(s) == s
    ensures |Trim(s)| <= |s|
  {
    if HasVisible(s) {
      var i := FindFirstNotOf(s).value;
      var j := FindLastNotOf(s).value;
      TrimSpan(s, i, j);
    }
  }

  /** Trimming twice is trimming once. */
  lemma TrimIdempotent(s: string)
    ensures Trim(Trim(s)) == Trim(s)
  {
    TrimEdges(s);
    var t := Trim(s);
    if HasVisible(s) {
      TrimSpan(t, 0, |t| - 1);
      assert t[0..|t|] == t;
    }
  }

  /** The first erase: when a visible character is found at e, the
      reference definition drops exactly what follows it, and a visible
      character is left for the second search. */
  lemma EraseTrailing(str: string, e: nat)
    requires FindLastNotOf(str) == Some(e)
    ensures HasVisible(str) && DropTrailing(str) == str[..e + 1]
    ensures FindFirstNotOf(str[..e + 1]).Some?
  {
    DropTrailingAt(str, e);
    assert str[..e + 1][e] == str[e];
  }

  /** The second erase: the reference definition drops exactly what
      precedes the first visible character. */
  lemma EraseLeading(t: string, b: nat)
    requires FindFirstNotOf(t) == Some(b)
    ensures DropLeading(t) == t[b..]
  {
    DropLeadingAt(t, b);
  }

  /** No visible character: neither erase happens. */
  lemma NothingVisible(str: string)
    requires FindLastNotOf(str).None?
    ensures !HasVisible(str) && FindFirstNotOf(str).None?
  {
  }

  /** `trimWhitespace`: the string passed by reference is the value going in
      and the value coming out. The trailing run is erased first, then the
      leading run of what is left, each only when a visible character is
      found. */
  method TrimWhitespace(str: string) returns (result: string)
    ensures result == Trim(str)
  {
    result := str;
    var end := FindLastNotOf(result);
    if end.Some? {
      EraseTrailing(result, end.value);
      result := result[..end.value + 1];
    } else {
      NothingVisible(result);
    }
    var start := FindFirstNotOf(result);
    if start.Some? {
      EraseLeading(result, start.value);
      result := result[start.value..];
    }
  }

  /** The string starts and ends with the quote character q. */
  predicate EnclosedBy(t: string, q: char)
  {
    |t| >= 2 && t[0] == q && t[|t| - 1] == q
  }

  /** Reference definition of what `quotationRemover` leaves: the trimmed
      name, less one pair of matching single or double quotes around it. */
  function Unquote(s: string): string
  {
    var t := Trim(s);
    if EnclosedBy(t, '\'') || EnclosedBy(t, '"') then t[1..|t| - 1] else t
  }

  /** `quotationRemover`: trims, then removes single quotes if the name is
      enclosed in them, otherwise double quotes if it is enclosed in them.
      The inner text is not trimmed again. */
  method QuotationRemover(fileName: string) returns (result: string)
    ensures result == Unquote(fileName)
  {
    result := TrimWhitespace(fileName);
    if |result| >= 2 && result[0] == '\'' && result[|result| - 1] == '\'' {
      result := result[1..|result| - 1];
    } else if |result| >= 2 && result[0] == '"' && result[|result| - 1] == '"' {
      result := result[1..|result| - 1];
    }
  }

  predicate IsQuote(q: char)
  {
    q == '\'' || q == '"'
  }

  predicate AllWhitespace(w: string)
  {
    forall k :: 0 <= k < |w| ==> IsWhitespace(w[k])
  }

  /** A quoted name with whitespace around the quotes comes back as exactly
      the text between the quotes, whitespace inside them included. */
  lemma UnquoteQuoted(w1: string, q: char, x: string, w2: string)
    requires AllWhitespace(w1) && AllWhitespace(w2) && IsQuote(q)
    ensures Unquote(w1 + [q] + x + [q] + w2) == x
  {
    var s := w1 + [q] + x + [q] + w2;
    var j := |w1| + |x| + 1;
    assert s[|w1|] == q && s[j] == q;
    TrimSpan(s, |w1|, j);
    assert s[|w1|..j + 1] == [q] + x + [q];
  }

  /** Outer quotes of different kinds are both kept. */
  lemma UnquoteMismatched(w1: string, a: char, x: string, b: char, w2: string)
    requires AllWhitespace(w1) && AllWhitespace(w2) && IsQuote(a) && IsQuote(b) && a != b
    ensures Unquote(w1 + [a] + x + [b] + w2) == [a] + x + [b]
  {
    var s := w1 + [a] + x + [b] + w2;
    var j := |w1| + |x| + 1;
    assert s[|w1|] == a && s[j] == b;
    TrimSpan(s, |w1|, j);
    assert s[|w1|..j + 1] == [a] + x + [b];
  }

  /** A name whose trimmed form does not start with a quote is only trimmed. */
  lemma UnquoteUnquoted(s: string)
    requires Trim(s) == [] || !IsQuote(Trim(s)[0])
    ensures Unquote(s) == Trim(s)
  {
  }

  /** The result is the trimmed name itself or the trimmed name less its
      first and last character. */
  lemma UnquoteWithinTrim(s: string)
    ensures |Trim(s)| <= |s|
    ensures Unquote(s) == Trim(s) || (|Trim(s)| >= 2 && Unquote(s) == Trim(s)[1..|Trim(s)| - 1])
  {
    TrimEdges(s);
  }

  /** `getFileExtension`: the suffix from the last '.', or "" when there is
      no dot or the only dot that would count is at position 0. */
  function FileExtension(fileName: string): (r: string)
    ensures r == [] <==> forall k :: 0 < k < |fileName| ==> fileName[k] != '.'
    ensures r != [] ==> r[0] == '.' && |r| < |fileName| && r == fileName[|fileName| - |r|..]
    ensures r != [] ==> forall k :: 0 < k < |r| ==> r[k] != '.'
  {
    var pos := FindLastOf(fileName, '.');
    if pos.Some? && pos.value > 0 then fileName[pos.value..] else ""
  }

  /** A base name of at least one character followed by an extension gives
      back that extension, whatever dots the base name holds. */
  lemma ExtensionOfJoin(base: string, ext: string)
    requires |base| > 0 && |ext| > 0 && ext[0] == '.'
    requires forall k :: 0 < k < |ext| ==> ext[k] != '.'
    ensures FileExtension(base + ext) == ext
  {
    var s := base + ext;
    var pos := FindLastOf(s, '.');
    assert s[|base|] == '.';
    forall k | |base| < k < |s| ensures s[k] != '.' {
      assert s[k] == ext[k - |base|];
    }
    assert pos.value == |base|;
    assert s[|base|..] == ext;
  }

  lemma ExtensionExamples()
    ensures FileExtension(".bashrc") == ""
    ensures FileExtension("noext") == ""
    ensures FileExtension("archive.tar.gz") == ".gz"
  {
    ExtensionOfJoin("archive.tar", ".gz");
    assert "archive.tar" + ".gz" == "archive.tar.gz";
  }
}
