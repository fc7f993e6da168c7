// Space-separated words: ToWord() and GetWord() of Sources/main.c.
module Words {
  import opened Lists

  /** GetWord() copies at most this many characters. */
  const MAX_WORD := 75

  function DropSpaces(s: string): (r: string)
    ensures |r| <= |s|
  {
    if s != [] && s[0] == ' ' then DropSpaces(s[1..]) else s
  }

  /** The text after the first run of spaces. */
  function DropWord(s: string): (r: string)
    ensures |r| <= |s| && (s != [] ==> |r| < |s|)
  {
    if s == [] then [] else if s[0] == ' ' then DropSpaces(s[1..]) else DropWord(s[1..])
  }

  function ToWord(nb: nat, s: string): (r: string)
    ensures |r| <= |s| && (nb > 0 && s != [] ==> |r| < |s|)
  {
    if nb == 0 then s else ToWord(nb - 1, DropWord(s))
  }

  function FirstWord(s: string): string {
    if s == [] || s[0] == ' ' then [] else [s[0]] + FirstWord(s[1..])
  }

  function Prefix(s: string, n: nat): string {
    if |s| <= n then s else s[..n]
  }

  function GetWord(nb: nat, s: string): string {
    Prefix(FirstWord(ToWord(nb, s)), MAX_WORD)
  }

  lemma DropSpacesIsSuffix(s: string)
    ensures DropSpaces(s) == s[|s| - |DropSpaces(s)|..]
  {
  }

  lemma DropWordIsSuffix(s: string)
    ensures DropWord(s) == s[|s| - |DropWord(s)|..]
  {
    if s != [] && s[0] == ' ' {
      DropSpacesIsSuffix(s[1..]);
    }
  }

  /** The rest from a word on is a suffix of the string. */
  lemma {:induction false} ToWordIsSuffix(nb: nat, s: string)
    ensures ToWord(nb, s) == s[|s| - |ToWord(nb, s)|..]
    decreases nb
  {
    if nb > 0 {
      DropWordIsSuffix(s);
      ToWordIsSuffix(nb - 1, DropWord(s));
    }
  }

  /** The two nested scans of ToWord(). */
  method ScanToWord(nb: nat, s: string) returns (ptr: string)
    ensures ptr == ToWord(nb, s)
  {
    ptr := s;
    var i := 0;
    while i != nb
      invariant 0 <= i <= nb
      invariant ToWord(nb, s) == ToWord(nb - i, ptr)
    {
      ghost var start := ptr;
      while ptr != [] && ptr[0] != ' '
        invariant DropWord(ptr) == DropWord(start)
        decreases |ptr|
      {
        ptr := ptr[1..];
      }
      if ptr != [] {
        ptr := ptr[1..];
        while ptr != [] && ptr[0] == ' '
          invariant DropSpaces(ptr) == DropWord(start)
          decreases |ptr|
        {
          ptr := ptr[1..];
        }
      }
      i := i + 1;
    }
  }

  /** The copying loop of GetWord(). */
  method CopyWord(nb: nat, s: string) returns (output: string)
    ensures output == GetWord(nb, s)
  {
    var ptr := ScanToWord(nb, s);
    ghost var start := ptr;
    output := [];
    var count := 0;
    while ptr != [] && ptr[0] != ' ' && count < MAX_WORD
      invariant count == |output| <= MAX_WORD
      invariant FirstWord(start) == output + FirstWord(ptr)
      decreases |ptr|
    {
      Assoc(output, [ptr[0]], FirstWord(ptr[1..]));
      output := output + [ptr[0]];
      ptr := ptr[1..];
      count := count + 1;
    }
    if |output| == MAX_WORD {
      assert FirstWord(start)[..MAX_WORD] == output;
    } else {
      assert FirstWord(ptr) == [];
    }
  }

  // --- word lists ------------------------------------------------------------------------

  /** A word that GetWord() gives back whole. */
  predicate Word(w: string) {
    w != [] && ' ' !in w && |w| <= MAX_WORD
  }

  predicate AllWords(ws: seq<string>) {
    forall i | 0 <= i < |ws| :: Word(ws[i])
  }

  /** Every word followed by a space, the form both the mode string and the mode line use. */
  function Spaced(ws: seq<string>): string {
    if ws == [] then [] else ws[0] + " " + Spaced(ws[1..])
  }

  lemma {:induction false} SpacedConcat(a: seq<string>, b: seq<string>)
    ensures Spaced(a + b) == Spaced(a) + Spaced(b)
    decreases |a|
  {
    if a == [] {
      assert a + b == b;
    } else {
      assert (a + b)[1..] == a[1..] + b;
      SpacedConcat(a[1..], b);
    }
  }

  predicate NoLeadingSpace(s: string) {
    s == [] || s[0] != ' '
  }

  lemma {:induction false} DropWordAfter(w: string, rest: string)
    requires ' ' !in w && NoLeadingSpace(rest)
    ensures DropWord(w + " " + rest) == rest && FirstWord(w + " " + rest) == w
    decreases |w|
  {
    var s := w + " " + rest;
    if w == [] {
      assert s[1..] == rest;
    } else {
      assert s[1..] == w[1..] + " " + rest;
      DropWordAfter(w[1..], rest);
    }
  }

  lemma SpacedLeads(ws: seq<string>, tail: string)
    requires AllWords(ws) && NoLeadingSpace(tail)
    ensures NoLeadingSpace(Spaced(ws) + tail)
  {
  }

  /** Stepping over words of a list. */
  lemma {:induction false} ToWordInList(ws: seq<string>, tail: string, n: nat)
    requires AllWords(ws) && NoLeadingSpace(tail) && n <= |ws|
    ensures ToWord(n, Spaced(ws) + tail) == Spaced(ws[n..]) + tail
    decreases n
  {
    if n == 0 {
      assert ws[0..] == ws;
    } else {
      var rest := Spaced(ws[1..]) + tail;
      assert Spaced(ws) + tail == ws[0] + " " + rest;
      SpacedLeads(ws[1..], tail);
      DropWordAfter(ws[0], rest);
      ToWordInList(ws[1..], tail, n - 1);
      assert ws[1..][n - 1..] == ws[n..];
    }
  }

  lemma FirstOfList(ws: seq<string>, tail: string)
    requires AllWords(ws) && NoLeadingSpace(tail) && ws != []
    ensures FirstWord(Spaced(ws) + tail) == ws[0]
  {
    var rest := Spaced(ws[1..]) + tail;
    assert Spaced(ws) + tail == ws[0] + " " + rest;
    SpacedLeads(ws[1..], tail);
    DropWordAfter(ws[0], rest);
  }

  /** A head word, then a list: where word n + 1 starts. */
  lemma RestAfterHead(head: string, ws: seq<string>, tail: string, n: nat)
    requires ' ' !in head && AllWords(ws) && NoLeadingSpace(tail) && n <= |ws|
    ensures ToWord(n + 1, head + " " + (Spaced(ws) + tail)) == Spaced(ws[n..]) + tail
  {
    SpacedLeads(ws, tail);
    DropWordAfter(head, Spaced(ws) + tail);
    ToWordInList(ws, tail, n);
  }

  /** A head word, then a list: word n + 1 is the n-th word of the list. */
  lemma WordAfterHead(head: string, ws: seq<string>, tail: string, n: nat)
    requires ' ' !in head && AllWords(ws) && NoLeadingSpace(tail) && n < |ws|
    ensures GetWord(n + 1, head + " " + (Spaced(ws) + tail)) == ws[n]
  {
    RestAfterHead(head, ws, tail, n);
    FirstOfList(ws[n..], tail);
  }
}
