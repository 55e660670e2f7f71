/** Which archive names the extractor accepts, and where it writes them (client/internal/tarx). */
module Tarx {
  import opened Hashing
  import opened Paths

  const RESERVED: set<string> := {
    "CON", "PRN", "AUX", "NUL",
    "COM1", "COM2", "COM3", "COM4", "COM5", "COM6", "COM7", "COM8", "COM9",
    "LPT1", "LPT2", "LPT3", "LPT4", "LPT5", "LPT6", "LPT7", "LPT8", "LPT9"
  }

  function Upper(s: string): string {
    seq(|s|, i requires 0 <= i < |s| => if 'a' <= s[i] <= 'z' then s[i] - 'a' + 'A' else s[i])
  }

  /** A component without its extension, which starts at the last dot. */
  function Stem(part: string): string {
    if part == "" then ""
    else if part[|part| - 1] == '.' then part[..|part| - 1]
    else if '.' in part then Stem(part[..|part| - 1])
    else part
  }

  datatype Refusal = EmptyName | AbsolutePath | NulByte | ParentTraversal | ReservedName | EscapesRoot

  predicate Traverses(cleaned: string) {
    cleaned == ".." || HasPrefix(cleaned, "../") || Contains(cleaned, "/../")
  }

  function SafeName(name: string): Option<Refusal> {
    if name == "" then Some(EmptyName)
    else if HasPrefix(name, "/") then Some(AbsolutePath)
    else if '\0' in name then Some(NulByte)
    else
      var cleaned := CleanName(name);
      if Traverses(cleaned) then Some(ParentTraversal)
      else if exists part :: part in Split(cleaned) && Upper(Stem(part)) in RESERVED then Some(ReservedName)
      else None
  }

  /** Where Extract writes an entry below `root`, or why it refuses. */
  datatype Placed = Refused(why: Refusal) | At(path: Comps)

  function Place(root: Comps, name: string): Placed {
    var refusal := SafeName(name);
    if refusal.Some? then Refused(refusal.value)
    else
      var out := JoinOnto(Absolute(root), name);
      if HasPrefix(Rel(root, out), "..") then Refused(EscapesRoot) else At(out)
  }

  /** The textual traversal check says exactly that the cleaned name goes up. */
  lemma TraversalCheckIsExact(name: string)
    ensures Traverses(CleanName(name)) <==> Cleaned(name) != [] && Cleaned(name)[0] == ".."
  {
    var k, rest := JoinCleaned([], name);
    UpsHead(k, rest);
    CleanedTraverses(k, rest);
  }

  lemma CleanedTraverses(k: nat, rest: Comps)
    requires Plain(rest)
    ensures var c := Ups(k) + rest;
            Traverses(if c == [] then "." else Join(c)) <==> c != [] && c[0] == ".."
  {
    var c := Ups(k) + rest;
    if k > 0 {
      UpsHead(k, rest);
      UpTraverses(k, rest);
    } else {
      assert c == rest;
      if rest != [] {
        assert rest[0] in rest;
        PlainStays(rest);
      } else {
        DotStays();
      }
    }
  }

  lemma DotStays()
    ensures !Traverses(".")
  {
    assert forall i: nat :: i <= |"."| ==> !OccursAt(".", "/../", i);
  }

  lemma UpTraverses(k: nat, rest: Comps)
    requires k > 0 && Plain(rest)
    ensures Traverses(Join(Ups(k) + rest))
  {
    var c := Ups(k) + rest;
    assert c[0] == "..";
    if |c| > 1 { assert Join(c) == "../" + Join(c[1..]); }
  }

  lemma PlainStays(c: Comps)
    requires c != [] && Plain(c)
    ensures !Traverses(Join(c))
  {
    SplitJoin(c);
    if Traverses(Join(c)) {
      TraversingHasDotDot(Join(c));
    }
  }

  lemma TraversingHasDotDot(s: string)
    requires Traverses(s)
    ensures ".." in Split(s)
  {
    SplitWord("..");
    if HasPrefix(s, "../") {
      assert s == ".." + "/" + s[3..];
      SplitConcat("..", s[3..]);
      assert Split(s)[0] == "..";
    } else if Contains(s, "/../") {
      var i :| 0 <= i <= |s| && OccursAt(s, "/../", i);
      MiddleComponent(s, i);
    }
  }

  lemma UpsHead(k: nat, rest: Comps)
    ensures k > 0 ==> Ups(k) + rest != [] && (Ups(k) + rest)[0] == ".."
  {
    if k > 0 { assert (Ups(k) + rest)[0] == Ups(k)[0]; }
  }

  lemma MiddleComponent(s: string, i: nat)
    requires i <= |s| && OccursAt(s, "/../", i)
    ensures ".." in Split(s)
  {
    var a, b := s[..i], s[i + 4..];
    assert s == a + "/" + (".." + "/" + b) by {
      assert s[i..] == "/../" + b;
      assert s == a + s[i..];
    }
    SplitConcat(a, ".." + "/" + b);
    SplitConcat("..", b);
    SplitWord("..");
    assert Split(s)[|Split(a)|] == "..";
  }

  /** The joined text starts with two dots exactly when its first component does. */
  lemma LeadingDots(c: Comps)
    requires c != [] && Slashless(c) && c[0] != ""
    ensures HasPrefix(Join(c), "..") <==> HasPrefix(c[0], "..")
  {
    assert c[0] in c;
    if |c[0]| == 1 && |c| > 1 {
      assert Join(c)[1] == '/';
    } else if |c[0]| >= 2 {
      assert Join(c)[..2] == c[0][..2];
    }
  }

  /** Extraction stays below the root: every accepted name is written at the root followed by
      its own cleaned components, none of which can leave it. */
  lemma ExtractionIsContained(root: Comps, name: string)
    requires Plain(root)
    ensures SafeName(name).None? ==>
              && JoinOnto(Absolute(root), name) == root + Cleaned(name)
              && Plain(Cleaned(name))
    ensures Place(root, name).At? ==> Place(root, name).path == root + Cleaned(name)
  {
    var k, rest := JoinCleaned(root, name);
    UpsHead(k, rest);
    TraversalCheckIsExact(name);
    if SafeName(name).None? {
      assert Ups(0) + rest == rest;
      assert Climb(root, 0) == root;
    }
  }

  /** The second check, on the relative path, refuses beyond the first exactly the names whose
      first cleaned component begins with two dots. */
  lemma RelCheckRefusesDotDotNames(root: Comps, name: string)
    requires Plain(root) && SafeName(name).None?
    ensures Place(root, name) == Refused(EscapesRoot) <==> Cleaned(name) != [] && HasPrefix(Cleaned(name)[0], "..")
  {
    ExtractionIsContained(root, name);
    var c := Cleaned(name);
    CommonOfExtension(root, c);
    assert Ups(0) + (root + c)[|root|..] == c;
    if c != [] {
      assert c[0] in c;
      LeadingDots(c);
    }
  }

  /** Without the name check the join can climb: by as many levels as the cleaned name asks. */
  lemma RefusedNamesClimb(root: Comps, name: string)
    requires Plain(root)
    ensures Traverses(CleanName(name)) <==>
              exists k: nat, rest: Comps :: k > 0 && Plain(rest) && Cleaned(name) == Ups(k) + rest
                                           && JoinOnto(Absolute(root), name) == Climb(root, k) + rest
  {
    var k, rest := JoinCleaned(root, name);
    TraversalCheckIsExact(name);
    if k == 0 {
      assert Ups(0) + rest == rest;
      if rest != [] { assert rest[0] in rest; }
      forall k': nat, rest': Comps ensures k' > 0 ==> Ups(k') + rest' != [] && (Ups(k') + rest')[0] == ".." {
        UpsHead(k', rest');
      }
    } else {
      UpsHead(k, rest);
    }
  }

  // ---------------------------------------------------------------- which names are accepted

  /** The word, whatever the case of its letters. */
  ghost predicate Spells(s: string, word: string) {
    && |s| == |word|
    && forall i :: 0 <= i < |s| ==> s[i] == word[i] || ('A' <= word[i] <= 'Z' && s[i] == word[i] - 'A' + 'a')
  }

  ghost predicate DeviceWord(s: string) {
    || Spells(s, "CON") || Spells(s, "PRN") || Spells(s, "AUX") || Spells(s, "NUL")
    || (|s| == 4 && (Spells(s[..3], "COM") || Spells(s[..3], "LPT")) && '1' <= s[3] <= '9')
  }

  /** A device name, alone or with one extension, which may be empty. */
  ghost predicate Device(part: string) {
    exists n :: 0 <= n <= |part| && DeviceWord(part[..n]) && (n == |part| || (part[n] == '.' && '.' !in part[n + 1..]))
  }

  lemma UpperSpells(s: string, word: string)
    requires forall i :: 0 <= i < |word| ==> 'A' <= word[i] <= 'Z' || '0' <= word[i] <= '9'
    ensures Upper(s) == word <==> Spells(s, word)
  {
    if Spells(s, word) {
      assert forall i :: 0 <= i < |s| ==> Upper(s)[i] == word[i];
    } else if |s| == |word| {
      var i :| 0 <= i < |s| && !(s[i] == word[i] || ('A' <= word[i] <= 'Z' && s[i] == word[i] - 'A' + 'a'));
      assert Upper(s)[i] != word[i];
    }
  }

  lemma ReservedIff(s: string)
    ensures Upper(s) in RESERVED <==> DeviceWord(s)
  {
    UpperSpells(s, "CON"); UpperSpells(s, "PRN"); UpperSpells(s, "AUX"); UpperSpells(s, "NUL");
    ReservedWords(Upper(s));
    if |s| == 4 {
      UpperSpells(s[..3], "COM"); UpperSpells(s[..3], "LPT");
      assert Upper(s)[..3] == Upper(s[..3]);
    }
  }

  lemma ReservedWords(u: string)
    ensures u in RESERVED <==>
              u in {"CON", "PRN", "AUX", "NUL"} || (|u| == 4 && u[..3] in {"COM", "LPT"} && '1' <= u[3] <= '9')
  {
    if |u| == 4 && '1' <= u[3] <= '9' {
      assert u == u[..3] + [u[3]];
      assert [u[3]] in {"1", "2", "3", "4", "5", "6", "7", "8", "9"};
    }
    assert "COM" + "1" == "COM1" && "COM" + "2" == "COM2" && "COM" + "3" == "COM3" && "COM" + "4" == "COM4" && "COM" + "5" == "COM5"
        && "COM" + "6" == "COM6" && "COM" + "7" == "COM7" && "COM" + "8" == "COM8" && "COM" + "9" == "COM9";
    assert "LPT" + "1" == "LPT1" && "LPT" + "2" == "LPT2" && "LPT" + "3" == "LPT3" && "LPT" + "4" == "LPT4" && "LPT" + "5" == "LPT5"
        && "LPT" + "6" == "LPT6" && "LPT" + "7" == "LPT7" && "LPT" + "8" == "LPT8" && "LPT" + "9" == "LPT9";
  }

  /** The stem ends at the last dot. */
  lemma {:induction false} StemIs(part: string) returns (n: nat)
    ensures ExtensionAt(part, n) && Stem(part) == part[..n]
  {
    if part == "" || '.' !in part {
      n := |part|;
    } else if part[|part| - 1] == '.' {
      n := |part| - 1;
    } else {
      var front := part[..|part| - 1];
      assert part == front + [part[|part| - 1]];
      n := StemIs(front);
      assert front[..n] == part[..n];
      assert part[n + 1..] == front[n + 1..] + [part[|part| - 1]];
    }
  }

  lemma DeviceIff(part: string)
    ensures Upper(Stem(part)) in RESERVED <==> Device(part)
  {
    var n := StemIs(part);
    ReservedIff(part[..n]);
    if Device(part) {
      var k :| 0 <= k <= |part| && DeviceWord(part[..k]) && (k == |part| || (part[k] == '.' && '.' !in part[k + 1..]));
      LastDotIsUnique(part, n, k);
    }
  }

  /** Where the extension starts, if there is one. */
  ghost predicate ExtensionAt(part: string, n: nat) {
    n <= |part| && if n == |part| then '.' !in part else part[n] == '.' && '.' !in part[n + 1..]
  }

  lemma LastDotIsUnique(part: string, n: nat, k: nat)
    requires ExtensionAt(part, n)
    requires k <= |part| && DeviceWord(part[..k]) && (k == |part| || (part[k] == '.' && '.' !in part[k + 1..]))
    ensures n == k
  {
    WordsHaveNoDots(part[..k]);
    assert forall i :: 0 <= i < k ==> part[..k][i] == part[i] != '.';
    NoDotFrom(part, n + 1);
    NoDotFrom(part, k + 1);
  }

  lemma WordsHaveNoDots(s: string)
    requires DeviceWord(s)
    ensures forall i :: 0 <= i < |s| ==> s[i] != '.'
  {
    if |s| == 4 { assert forall i :: 0 <= i < 3 ==> s[..3][i] == s[i]; }
  }

  lemma NoDotFrom(part: string, n: nat)
    ensures n <= |part| && '.' !in part[n..] ==> forall i :: n <= i < |part| ==> part[i] != '.'
  {
    assert n <= |part| ==> forall i :: n <= i < |part| ==> part[i] == part[n..][i - n];
  }

  /** Exactly which names are accepted: not empty, not absolute, without NUL, whose cleaned components
      do not begin with two dots in the first place and are no device names. Everything else is
      extracted, at its cleaned components. */
  lemma AcceptedIff(root: Comps, name: string)
    requires Plain(root)
    ensures Place(root, name) == At(root + Cleaned(name)) <==> Place(root, name).At?
    ensures Place(root, name).At? <==>
              && name != "" && name[0] != '/' && '\0' !in name
              && (Cleaned(name) != [] ==> !(".." <= Cleaned(name)[0]))
              && (forall part :: part in Cleaned(name) ==> !Device(part))
  {
    ExtractionIsContained(root, name);
    TraversalCheckIsExact(name);
    forall part ensures Upper(Stem(part)) in RESERVED <==> Device(part) { DeviceIff(part); }
    PartsOfCleaned(name);
    if SafeName(name).None? { RelCheckRefusesDotDotNames(root, name); }
  }

  /** Splitting the cleaned name gives its components back, or a single dot. */
  lemma PartsOfCleaned(name: string)
    ensures Split(CleanName(name)) == if Cleaned(name) == [] then ["."] else Cleaned(name)
    ensures !Device(".")
  {
    var k, rest := JoinCleaned([], name);
    assert Slashless(Cleaned(name));
    SplitWord(".");
    if Cleaned(name) != [] { SplitJoin(Cleaned(name)); }
    forall n | 0 <= n <= 1 ensures !DeviceWord("."[..n]) { }
  }

  /** Place does not depend on the root except for the prefix. */
  lemma PlaceBelow(root: Comps, name: string)
    requires Plain(root)
    ensures Place([], name).Refused? <==> Place(root, name).Refused?
    ensures Place([], name).At? ==> Plain(Place([], name).path) && Place(root, name) == At(root + Place([], name).path)
  {
    if SafeName(name).None? {
      ExtractionIsContained([], name);
      ExtractionIsContained(root, name);
      RelCheckRefusesDotDotNames([], name);
      RelCheckRefusesDotDotNames(root, name);
      assert [] + Cleaned(name) == Cleaned(name);
    }
  }
}
