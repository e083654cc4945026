/** The string handling that service names and `${service.field}` references need
    (runner-v2/pkg/workflowbundle/bundle.go). */
module Text {
  // ---- Trimming and case -----------------------------------------------------------

  /** Unicode white space, as strings.TrimSpace sees it. */
  predicate IsSpace(c: char) {
    || '\U{9}' <= c <= '\U{D}' || c == ' ' || c == '\U{85}' || c == '\U{A0}' || c == '\U{1680}'
    || '\U{2000}' <= c <= '\U{200A}' || c == '\U{2028}' || c == '\U{2029}' || c == '\U{202F}'
    || c == '\U{205F}' || c == '\U{3000}'
  }

  function TrimLeft(s: string, p: char -> bool): string {
    if s != "" && p(s[0]) then TrimLeft(s[1..], p) else s
  }

  function TrimRight(s: string, p: char -> bool): string {
    if s != "" && p(s[|s| - 1]) then TrimRight(s[..|s| - 1], p) else s
  }

  function Trim(s: string, p: char -> bool): string {
    TrimRight(TrimLeft(s, p), p)
  }

  function TrimSpace(s: string): string {
    Trim(s, IsSpace)
  }

  predicate Blank(s: string) {
    TrimSpace(s) == ""
  }

  /** Lower case, as far as service names can tell: besides the ASCII letters, the Kelvin
      sign and the dotted capital I are the only characters with an ASCII lower case. */
  function LowerChar(c: char): char {
    if 'A' <= c <= 'Z' then (c as int + 32) as char
    else if c == '\U{212A}' then 'k'
    else if c == '\U{130}' then 'i'
    else c
  }

  function ToLower(s: string): (r: string)
    ensures |r| == |s| && forall i :: 0 <= i < |s| ==> r[i] == LowerChar(s[i])
  {
    if s == "" then "" else [LowerChar(s[0])] + ToLower(s[1..])
  }

  // ---- SanitizeName ------------------------------------------------------------------

  predicate Plain(c: char) {
    'a' <= c <= 'z' || '0' <= c <= '9'
  }

  /** A service name: letters, digits and single inner underscores. */
  predicate IsSlug(s: string) {
    && (forall i :: 0 <= i < |s| ==> Plain(s[i]) || s[i] == '_')
    && (forall i, j :: 0 <= i && j == i + 1 < |s| ==> !(s[i] == '_' && s[j] == '_'))
    && (s != "" ==> s[0] != '_' && s[|s| - 1] != '_')
  }

  predicate IsUnderscore(c: char) {
    c == '_'
  }

  /** What the builder loop has written after reading `s`: every run of characters other
      than letters and digits becomes one underscore. */
  function Squeezed(s: string): string {
    if s == "" then "" else Grown(Squeezed(s[..|s| - 1]), s[|s| - 1])
  }

  /** What the builder has written once it has read one more character. */
  function Grown(squeezed: string, c: char): string {
    if Plain(c) then squeezed + [c]
    else if squeezed != "" && squeezed[|squeezed| - 1] == '_' then squeezed
    else squeezed + "_"
  }

  /** The meaning of SanitizeName. */
  function ServiceName(text: string): string {
    Trim(Squeezed(ToLower(TrimSpace(text))), IsUnderscore)
  }

  method ReplaceSeparators(s: string) returns (r: string)
    ensures |r| == |s|
    ensures forall i :: 0 <= i < |s| ==> r[i] == if s[i] == ' ' || s[i] == '-' then '_' else s[i]
  {
    r := "";
    for i := 0 to |s|
      invariant |r| == i
      invariant forall k :: 0 <= k < i ==> r[k] == if s[k] == ' ' || s[k] == '-' then '_' else s[k]
    {
      r := r + [if s[i] == ' ' || s[i] == '-' then '_' else s[i]];
    }
  }

  method SanitizeName(text: string) returns (name: string)
    ensures name == ServiceName(text)
    ensures IsSlug(name)
  {
    var lowered := ToLower(TrimSpace(text));
    var sanitized := ReplaceSeparators(lowered);
    var builder := "";
    var lastUnderscore := false;
    for i := 0 to |sanitized|
      invariant builder == Squeezed(lowered[..i])
      invariant lastUnderscore <==> builder != "" && builder[|builder| - 1] == '_'
    {
      assert lowered[..i + 1][..i] == lowered[..i];
      var r := sanitized[i];
      var isAllowed := ('a' <= r <= 'z') || ('0' <= r <= '9') || r == '_';
      if !isAllowed {
        r := '_';
      }
      if r == '_' {
        if !lastUnderscore {
          builder := builder + [r];
        }
        lastUnderscore := true;
      } else {
        lastUnderscore := false;
        builder := builder + [r];
      }
    }
    assert lowered[..|sanitized|] == lowered;
    name := Trim(builder, IsUnderscore);
    ServiceNameIsSlug(text);
  }

  /** Squeezed text has only letters, digits and single underscores. */
  lemma {:induction false} SqueezedShape(s: string)
    ensures forall i :: 0 <= i < |Squeezed(s)| ==> Plain(Squeezed(s)[i]) || Squeezed(s)[i] == '_'
    ensures forall i, j :: 0 <= i && j == i + 1 < |Squeezed(s)| ==> !(Squeezed(s)[i] == '_' && Squeezed(s)[j] == '_')
  {
    if s != "" {
      SqueezedShape(s[..|s| - 1]);
    }
  }

  /** Trimming cuts off a prefix and a suffix and leaves no `p` at either end. */
  lemma {:induction false} TrimLeftShape(s: string, p: char -> bool) returns (k: nat)
    ensures k <= |s| && TrimLeft(s, p) == s[k..] && forall i :: 0 <= i < k ==> p(s[i])
    ensures TrimLeft(s, p) != "" ==> !p(TrimLeft(s, p)[0])
  {
    if s != "" && p(s[0]) {
      var n := TrimLeftShape(s[1..], p);
      k := n + 1;
    } else {
      k := 0;
    }
  }

  lemma {:induction false} TrimRightShape(s: string, p: char -> bool) returns (k: nat)
    ensures k <= |s| && TrimRight(s, p) == s[..k] && forall i :: k <= i < |s| ==> p(s[i])
    ensures TrimRight(s, p) != "" ==> !p(TrimRight(s, p)[|TrimRight(s, p)| - 1])
  {
    if s != "" && p(s[|s| - 1]) {
      k := TrimRightShape(s[..|s| - 1], p);
    } else {
      k := |s|;
    }
  }

  lemma ServiceNameIsSlug(text: string)
    ensures IsSlug(ServiceName(text))
  {
    var squeezed := Squeezed(ToLower(TrimSpace(text)));
    SqueezedShape(ToLower(TrimSpace(text)));
    var i := TrimLeftShape(squeezed, IsUnderscore);
    var j := TrimRightShape(squeezed[i..], IsUnderscore);
  }

  lemma {:induction false} SqueezedSlug(s: string)
    requires forall i :: 0 <= i < |s| ==> Plain(s[i]) || s[i] == '_'
    requires forall i, j :: 0 <= i && j == i + 1 < |s| ==> !(s[i] == '_' && s[j] == '_')
    ensures Squeezed(s) == s
  {
    if s != "" {
      var front := s[..|s| - 1];
      SqueezedSlug(front);
      assert s == front + [s[|s| - 1]];
    }
  }

  /** Slugs have nothing to trim, to lower or to squeeze. */
  lemma SlugIsStable(s: string)
    requires IsSlug(s)
    ensures TrimSpace(s) == s && Trim(s, IsUnderscore) == s && ToLower(s) == s && Squeezed(s) == s
  {
    SqueezedSlug(s);
    NothingToTrim(s, IsSpace);
    NothingToTrim(s, IsUnderscore);
    NothingToLower(s);
  }

  lemma NothingToTrim(s: string, p: char -> bool)
    requires s != "" ==> !p(s[0]) && !p(s[|s| - 1])
    ensures Trim(s, p) == s
  {
  }

  lemma NothingToLower(s: string)
    requires forall i :: 0 <= i < |s| ==> LowerChar(s[i]) == s[i]
    ensures ToLower(s) == s
  {
  }

  /** SanitizeName leaves exactly the slugs unchanged; so applying it twice is applying
      it once. */
  lemma ServiceNameFixpoints(s: string)
    ensures ServiceName(s) == s <==> IsSlug(s)
  {
    ServiceNameIsSlug(s);
    if IsSlug(s) {
      SlugIsStable(s);
    }
  }

  /** Names are told apart only by what is left after trimming and lowering. */
  lemma SameServiceName(s: string, t: string)
    requires ToLower(TrimSpace(s)) == ToLower(TrimSpace(t))
    ensures ServiceName(s) == ServiceName(t)
  {
  }

  // ---- The words of a name -------------------------------------------------------------------

  /** The maximal runs of letters and digits. */
  function Words(s: string): seq<string> {
    if s == "" then []
    else WithCharacter(Words(s[..|s| - 1]), |s| > 1 && Plain(s[|s| - 2]), s[|s| - 1])
  }

  /** One more character goes to the last word if the text before ends in it. */
  function WithCharacter(words: seq<string>, inWord: bool, c: char): seq<string> {
    if !Plain(c) then words
    else if inWord && words != [] then words[..|words| - 1] + [words[|words| - 1] + [c]]
    else words + [[c]]
  }

  function Joined(words: seq<string>): string {
    if words == [] then ""
    else if |words| == 1 then words[0]
    else Joined(words[..|words| - 1]) + "_" + words[|words| - 1]
  }

  lemma JoinedSnoc(words: seq<string>, word: string)
    ensures Joined(words + [word]) == if words == [] then word else Joined(words) + "_" + word
  {
    assert (words + [word])[..|words|] == words;
  }

  lemma JoinedExtend(words: seq<string>, word: string, c: char)
    ensures Joined(words + [word + [c]]) == Joined(words + [word]) + [c]
  {
    JoinedSnoc(words, word);
    JoinedSnoc(words, word + [c]);
  }

  /** The builder's text is the joined words, with an underscore for what precedes the first
      and what follows the last. */
  ghost predicate Framed(s: string, words: seq<string>, squeezed: string) {
    && (words == [] ==> squeezed == if s == "" then "" else "_")
    && (words == [] ==> forall i :: 0 <= i < |s| ==> !Plain(s[i]))
    && (words != [] ==>
          && s != ""
          && squeezed == (if Plain(s[0]) then "" else "_") + Joined(words) + (if Plain(s[|s| - 1]) then "" else "_")
          && words[|words| - 1] != ""
          && Joined(words) != "" && Plain(Joined(words)[0]) && Plain(Joined(words)[|Joined(words)| - 1]))
  }

  lemma {:induction false} SqueezedIsFramed(s: string)
    ensures Framed(s, Words(s), Squeezed(s))
  {
    if s != "" {
      var front, c := s[..|s| - 1], s[|s| - 1];
      SqueezedIsFramed(front);
      assert s == front + [c];
      FramedSnoc(front, Words(front), Squeezed(front), c);
    }
  }

  lemma FramedSnoc(front: string, words: seq<string>, squeezed: string, c: char)
    requires Framed(front, words, squeezed)
    ensures Framed(front + [c], WithCharacter(words, front != "" && Plain(front[|front| - 1]), c), Grown(squeezed, c))
  {
    if !Plain(c) {
      FramedDrop(front, words, squeezed, c);
    } else if words == [] {
      assert WithCharacter(words, false, c) == [[c]];
      assert Joined([[c]]) == [c];
    } else if Plain(front[|front| - 1]) {
      FramedExtend(front, words, squeezed, c);
    } else {
      FramedBegin(front, words, squeezed, c);
    }
  }

  lemma FramedDrop(front: string, words: seq<string>, squeezed: string, c: char)
    requires Framed(front, words, squeezed) && !Plain(c)
    ensures Framed(front + [c], words, Grown(squeezed, c))
  {
    if words != [] && Plain(front[|front| - 1]) {
      assert squeezed[|squeezed| - 1] == Joined(words)[|Joined(words)| - 1];
    }
  }

  lemma FramedExtend(front: string, words: seq<string>, squeezed: string, c: char)
    requires Framed(front, words, squeezed) && Plain(c) && words != [] && Plain(front[|front| - 1])
    ensures Framed(front + [c], words[..|words| - 1] + [words[|words| - 1] + [c]], Grown(squeezed, c))
  {
    var last := words[|words| - 1];
    assert words == words[..|words| - 1] + [last];
    JoinedExtend(words[..|words| - 1], last, c);
  }

  lemma FramedBegin(front: string, words: seq<string>, squeezed: string, c: char)
    requires Framed(front, words, squeezed) && Plain(c) && words != [] && !Plain(front[|front| - 1])
    ensures Framed(front + [c], words + [[c]], Grown(squeezed, c))
  {
    JoinedSnoc(words, [c]);
  }

  /** A service name is the lower-case words of the label, one underscore between every two:
      nothing else is kept, and nothing of them is lost. */
  lemma NameIsItsWords(text: string)
    ensures ServiceName(text) == Joined(Words(ToLower(TrimSpace(text))))
  {
    var s := ToLower(TrimSpace(text));
    SqueezedIsFramed(s);
    UnframedIsJoined(s, Words(s), Squeezed(s));
  }

  lemma UnframedIsJoined(s: string, words: seq<string>, squeezed: string)
    requires Framed(s, words, squeezed)
    ensures Trim(squeezed, IsUnderscore) == Joined(words)
  {
    if words != [] {
      TrimFrame(!Plain(s[0]), Joined(words), !Plain(s[|s| - 1]));
    } else if s != "" {
      assert TrimLeft("_", IsUnderscore) == TrimLeft("", IsUnderscore);
    }
  }

  lemma TrimLeftOne(s: string)
    requires s != "" && s[0] != '_'
    ensures TrimLeft(s, IsUnderscore) == s && TrimLeft("_" + s, IsUnderscore) == s
  {
    assert ("_" + s)[1..] == s;
  }

  lemma TrimRightOne(s: string)
    requires s != "" && s[|s| - 1] != '_'
    ensures TrimRight(s, IsUnderscore) == s && TrimRight(s + "_", IsUnderscore) == s
  {
    var t := s + "_";
    assert t[..|t| - 1] == s && t[|t| - 1] == '_';
    assert TrimRight(t, IsUnderscore) == TrimRight(s, IsUnderscore);
  }

  lemma TrimFrame(before: bool, j: string, after: bool)
    requires j != "" && j[0] != '_' && j[|j| - 1] != '_'
    ensures Trim((if before then "_" else "") + j + (if after then "_" else ""), IsUnderscore) == j
  {
    var right := if after then j + "_" else j;
    assert right[0] == j[0];
    TrimLeftOne(right);
    TrimRightOne(j);
    assert (if before then "_" else "") + j + (if after then "_" else "") == if before then "_" + right else right;
  }

  /** Trimming cuts off exactly the blanks at both ends. */
  lemma TrimSpaceExactly(s: string) returns (i: nat, j: nat)
    ensures i <= j <= |s| && TrimSpace(s) == s[i..j]
    ensures forall k :: 0 <= k < i || j <= k < |s| ==> IsSpace(s[k])
    ensures i < j ==> !IsSpace(s[i]) && !IsSpace(s[j - 1])
  {
    i := TrimLeftShape(s, IsSpace);
    var k := TrimRightShape(s[i..], IsSpace);
    j := i + k;
    assert s[i..][..k] == s[i..j];
    forall m | j <= m < |s|
      ensures IsSpace(s[m])
    {
      assert s[m] == s[i..][m - i];
    }
  }
}
