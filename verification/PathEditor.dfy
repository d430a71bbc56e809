/** The `root` buffer of the scanner, edited in place by a backward scan and by `strcat`. */
module PathEditor {
  import opened Bytes
  import opened Words
  import opened Paths

  const CAPACITY := 1024

  class Editor {
    const root: array<byte>

    ghost predicate Valid()
      reads this, root
    {
      root.Length == CAPACITY && 0 in root[..]
    }

    ghost function Content(): Text
      reads this, root
    {
      UpToNul(root[..])
    }

    /** The buffer as the program starts, holding any path of folders that fits. */
    constructor (path: Text)
      requires 0 !in path && |path| < 1024
      ensures Valid() && fresh(root) && Content() == path
    {
      root := new byte[CAPACITY](i => if 0 <= i < |path| then path[i] else 0);
      new;
      assert root[..][..|path|] == path && root[|path|] == 0;
      UpToNulIs(root[..], |path|);
    }

    /** `strlen`. */
    method Length() returns (n: nat)
      requires Valid()
      ensures n == |Content()| < CAPACITY
    {
      n := 0;
      while root[n] != 0
        invariant n <= |Content()| < CAPACITY
        decreases CAPACITY - n
      {
        assert root[..][n] == Content()[n];
        n := n + 1;
      }
    }

    /** A NUL at `i` cuts the content there. */
    method CutAt(i: nat)
      requires Valid() && i <= |Content()|
      modifies root
      ensures Valid() && Content() == old(Content())[..i]
    {
      ghost var t := Content();
      root[i] := 0;
      assert root[..][i] == 0;
      assert root[..][..i] == t[..i];
      UpToNulIs(root[..], i);
    }

    /** `update_root_up`, lines 50-69. */
    method UpdateRootUp()
      requires Valid()
      modifies root
      ensures Valid() && Content() == Up(old(Content()))
    {
      var len := Length();
      if len <= 1 {
        return;
      }
      ghost var t := Content();
      var i := len - 1;
      while i >= 0
        invariant -1 <= i < len && root[..] == old(root[..])
        invariant forall j :: i < j < len ==> t[j] != SLASH
      {
        assert root[..][i] == t[i];
        if root[i] == SLASH {
          LastSlashAt(t, i);
          CutAt(if i == 0 then 1 else i);
          return;
        }
        i := i - 1;
      }
      LastSlashAt(t, -1);
    }

    lemma LastSlashAt(t: Text, i: int)
      requires -1 <= i < |t| && (i >= 0 ==> t[i] == SLASH)
      requires forall j :: i < j < |t| ==> t[j] != SLASH
      ensures LastSlash(t) == i
    {
      var k := LastSlash(t);
      assert k >= 0 ==> t[k] == SLASH;
    }

    /** `strcat`. */
    method Append(s: Text)
      requires Valid() && 0 !in s && |Content()| + |s| < CAPACITY
      modifies root
      ensures Valid() && Content() == old(Content()) + s
    {
      var n := Length();
      ghost var t := Content();
      var i := 0;
      while i < |s|
        invariant i <= |s| && root[..n + i] == t + s[..i]
      {
        root[n + i] := s[i];
        assert root[..n + i + 1] == root[..n + i] + [s[i]];
        assert s[..i + 1] == s[..i] + [s[i]];
        i := i + 1;
      }
      root[n + i] := 0;
      assert s[..i] == s;
      assert root[..][..n + i] == t + s && root[..][n + i] == 0;
      UpToNulIs(root[..], n + i);
    }

    /** `update_root_down`, lines 71-79. */
    method UpdateRootDown(folder: Text)
      requires Valid() && Content() != [] && 0 !in folder
      requires |Down(Content(), folder)| < 1024
      modifies root
      ensures Valid() && Content() == Down(old(Content()), folder)
    {
      var len := Length();
      assert root[..][len - 1] == Content()[len - 1];
      if root[len - 1] != SLASH {
        Append([SLASH]);
      }
      Append(folder);
    }

    /** One turn of the command loop: `..`, or a folder name that may be a directory. */
    method Obey(command: Command, ghost stack: seq<Text>)
      requires Valid() && Content() == Render(stack) && Folders(stack)
      requires command.GoDown? ==> IsFolder(command.folder)
      requires |Render(Apply(stack, command))| < CAPACITY
      modifies root
      ensures Valid() && Folders(Apply(stack, command)) && Content() == Render(Apply(stack, command))
    {
      match command {
        case GoUp =>
          UpIsPop(stack);
          UpdateRootUp();
        case GoDown(folder, isDirectory) =>
          if isDirectory {
            DownIsPush(stack, folder);
            UpdateRootDown(folder);
          }
      }
    }

    /** The command loop, lines 142-167, as long as every path on the way fits. */
    method Run(commands: seq<Command>, ghost stack: seq<Text>)
      requires Valid() && Content() == Render(stack) && Folders(stack)
      requires forall c <- commands :: c.GoDown? ==> IsFolder(c.folder)
      requires forall k :: 0 <= k <= |commands| ==> |Render(After(stack, commands[..k]))| < 1024
      modifies root
      ensures Valid() && Folders(After(stack, commands))
      ensures Content() == Render(After(stack, commands))
    {
      var i := 0;
      while i < |commands|
        invariant i <= |commands| && Valid()
        invariant Folders(After(stack, commands[..i])) && Content() == Render(After(stack, commands[..i]))
      {
        assert commands[..i + 1][..i] == commands[..i];
        assert commands[i] in commands;
        assert |Render(After(stack, commands[..i + 1]))| < CAPACITY;
        Obey(commands[i], After(stack, commands[..i]));
        i := i + 1;
      }
      assert commands[..i] == commands;
    }
  }
}
