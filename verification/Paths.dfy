/** The current directory of the scanner: paths as text, and the component stack they stand for. */
module Paths {
  import opened Bytes
  import opened Words

  /** A folder name as the program assumes it: not empty, and without `/`. */
  predicate IsFolder(c: Text) {
    c != [] && 47 !in c && 0 !in c
  }

  /** The last `/`, or -1. */
  function LastSlash(t: Text): (i: int)
    ensures -1 <= i < |t| && (i >= 0 ==> t[i] == SLASH)
    ensures forall j :: i < j < |t| ==> t[j] != SLASH
  {
    if t == [] then -1
    else if t[|t| - 1] == SLASH then |t| - 1
    else LastSlash(t[..|t| - 1])
  }

  /** Going up: cut at the last `/`, but keep the one of the root. */
  function Up(t: Text): Text {
    var i := LastSlash(t);
    if |t| <= 1 || i < 0 then t else if i == 0 then t[..1] else t[..i]
  }

  function Down(t: Text, folder: Text): Text
    requires t != []
  {
    (if t[|t| - 1] == SLASH then t else t + [SLASH]) + folder
  }

  function Joined(stack: seq<Text>): Text {
    if stack == [] then [] else Joined(stack[..|stack| - 1]) + ([SLASH] + stack[|stack| - 1])
  }

  /** The path of a stack of components, outermost first. */
  function Render(stack: seq<Text>): (t: Text)
    ensures t != []
  {
    if stack == [] then [SLASH] else Joined(stack)
  }

  /** The path, character by character: a slash before each folder, and a lone one for none. */
  lemma {:induction false} RenderIs(stack: seq<Text>)
    ensures Render(stack) == if stack == [] then [47]
                             else Concat(seq(|stack|, i requires 0 <= i < |stack| => [47] + stack[i]))
  {
    JoinedIs(stack);
  }

  lemma {:induction false} JoinedIs(stack: seq<Text>)
    ensures Joined(stack) == Concat(seq(|stack|, i requires 0 <= i < |stack| => [47] + stack[i]))
  {
    if stack != [] {
      var before, last := stack[..|stack| - 1], stack[|stack| - 1];
      JoinedIs(before);
      var pieces := seq(|stack|, i requires 0 <= i < |stack| => [47] + stack[i]);
      var fewer := seq(|before|, i requires 0 <= i < |before| => [47] + before[i]);
      assert pieces == fewer + [[47] + last];
      ConcatSnoc(fewer, [47] + last);
    }
  }

  ghost predicate Folders(stack: seq<Text>) {
    forall c <- stack :: IsFolder(c)
  }

  function Pop(stack: seq<Text>): seq<Text> {
    if stack == [] then [] else stack[..|stack| - 1]
  }

  lemma LastSlashIs(t: Text, folder: Text)
    requires SLASH !in folder
    ensures LastSlash(t + [SLASH] + folder) == |t|
  {
    var all := t + [SLASH] + folder;
    var i := LastSlash(all);
    assert all[|t|] == SLASH;
    assert forall j :: |t| < j < |all| ==> all[j] in folder;
  }

  lemma RenderEnd(stack: seq<Text>)
    requires Folders(stack)
    ensures var t := Render(stack); t[|t| - 1] == SLASH <==> stack == []
  {
    if stack != [] {
      assert stack[|stack| - 1] in stack;
    }
  }

  /** Down is push. */
  lemma DownIsPush(stack: seq<Text>, folder: Text)
    requires Folders(stack) && IsFolder(folder)
    ensures Down(Render(stack), folder) == Render(stack + [folder])
  {
    RenderEnd(stack);
    assert (stack + [folder])[..|stack|] == stack;
    if stack != [] {
      Assoc(Joined(stack), [SLASH], folder);
    } else {
      assert Joined([]) + ([SLASH] + folder) == [SLASH] + folder;
    }
  }

  /** Up is pop, and the root stays put. */
  lemma UpIsPop(stack: seq<Text>)
    requires Folders(stack)
    ensures Up(Render(stack)) == Render(Pop(stack))
  {
    if stack != [] {
      var before, last := Joined(Pop(stack)), stack[|stack| - 1];
      assert last in stack;
      Assoc(before, [SLASH], last);
      LastSlashIs(before, last);
      var t := Render(stack);
      assert t == before + [SLASH] + last;
      if Pop(stack) == [] {
        assert t[..1] == [SLASH];
      } else {
        assert t[..|before|] == before;
        assert Folders(Pop(stack));
        JoinedNotEmpty(Pop(stack));
      }
    }
  }

  lemma JoinedNotEmpty(stack: seq<Text>)
    ensures Joined(stack) == [] <==> stack == []
  {
  }

  /**
   Going up right after going down restores the text if and only if it is the root or does not end
   in a `/`, whether or not it is the path of a stack.
   */
  lemma UpAfterDownIff(t: Text, folder: Text)
    requires t != [] && IsFolder(folder)
    ensures Up(Down(t, folder)) == t <==> t == [SLASH] || t[|t| - 1] != SLASH
  {
    if t[|t| - 1] == SLASH {
      var before := t[..|t| - 1];
      assert t == before + [SLASH];
      LastSlashIs(before, folder);
      assert Down(t, folder)[..|before|] == before;
      if before == [] {
        assert Down(t, folder)[..1] == [SLASH];
      }
    } else {
      LastSlashIs(t, folder);
      assert Down(t, folder)[..|t|] == t;
    }
  }

  datatype Command = GoUp | GoDown(folder: Text, isDirectory: bool)

  function Apply(stack: seq<Text>, command: Command): seq<Text> {
    match command
    case GoUp => Pop(stack)
    case GoDown(folder, isDirectory) => if isDirectory then stack + [folder] else stack
  }

  /** The stack after a sequence of commands; a folder that is not a directory changes nothing. */
  function After(stack: seq<Text>, commands: seq<Command>): seq<Text> {
    if commands == [] then stack
    else Apply(After(stack, commands[..|commands| - 1]), commands[|commands| - 1])
  }

  lemma {:induction false} AfterConcat(stack: seq<Text>, a: seq<Command>, b: seq<Command>)
    ensures After(stack, a + b) == After(After(stack, a), b)
  {
    if b == [] {
      assert a + b == a;
    } else {
      assert (a + b)[..|a + b| - 1] == a + b[..|b| - 1];
      AfterConcat(stack, a, b[..|b| - 1]);
    }
  }

  /** A folder that is not a directory changes nothing, wherever it is named. */
  lemma NoDirectory(stack: seq<Text>, a: seq<Command>, folder: Text, b: seq<Command>)
    ensures After(stack, a + [GoDown(folder, false)] + b) == After(stack, a + b)
  {
    var c := [GoDown(folder, false)];
    AfterConcat(stack, a + c, b);
    AfterConcat(stack, a, c);
    AfterConcat(stack, a, b);
    assert c[..0] == [];
  }

  /** The commands that lead down through the folders, and as many that lead up. */
  function Descend(folders: seq<Text>): seq<Command> {
    seq(|folders|, i requires 0 <= i < |folders| => GoDown(folders[i], true))
  }

  function Ascend(n: nat): seq<Command> {
    seq(n, _ => GoUp)
  }

  lemma {:induction false} DescendIs(stack: seq<Text>, folders: seq<Text>)
    ensures After(stack, Descend(folders)) == stack + folders
  {
    if folders == [] {
      assert stack + folders == stack;
    } else {
      var before := folders[..|folders| - 1];
      DescendIs(stack, before);
      assert Descend(folders)[..|folders| - 1] == Descend(before);
      assert stack + before + [folders[|folders| - 1]] == stack + folders;
    }
  }

  lemma {:induction false} AscendIs(stack: seq<Text>, n: nat)
    ensures After(stack, Ascend(n)) == stack[..if n < |stack| then |stack| - n else 0]
  {
    if n > 0 {
      AscendIs(stack, n - 1);
      assert Ascend(n)[..n - 1] == Ascend(n - 1);
    }
  }

  /** Down through any folders and up as many times leads back; further up leads to the root at most. */
  lemma ThereAndBack(stack: seq<Text>, folders: seq<Text>, n: nat)
    ensures After(stack, Descend(folders) + Ascend(n))
         == (stack + folders)[..if n < |stack + folders| then |stack + folders| - n else 0]
    ensures n == |folders| ==> After(stack, Descend(folders) + Ascend(n)) == stack
  {
    AfterConcat(stack, Descend(folders), Ascend(n));
    DescendIs(stack, folders);
    AscendIs(stack + folders, n);
  }
}
