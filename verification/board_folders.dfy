/**
 The board folders (`YafBoardFolders`): the folder of a board is the board
 root, followed by the board id and `/` when every board has a folder of its
 own; the upload and image folders are that folder followed by a fixed
 suffix. The configuration and the board id come in as parameters.
 */
module BoardFolders {
  import opened Text

  /** `Config.BoardRoot` and `Config.MultiBoardFolders`. */
  datatype Config = Config(boardRoot: string, multiBoardFolders: bool)

  /** The seven folders derived from the board folder. */
  datatype Folder = Uploads | Images | Avatars | Categories | Forums | Medals | Ranks

  /** `BoardFolder`. */
  function BoardFolder(c: Config, boardId: int): (r: string)
    ensures |c.boardRoot| <= |r| && r[..|c.boardRoot|] == c.boardRoot
  {
    if c.multiBoardFolders then c.boardRoot + IntToString(boardId) + "/" else c.boardRoot
  }

  /** What each folder appends to the board folder. */
  function Suffix(f: Folder): string {
    match f
    case Uploads => "Uploads"
    case Images => "Images"
    case Avatars => "Images/Avatars"
    case Categories => "Images/Categories"
    case Forums => "Images/Forums"
    case Medals => "Images/Medals"
    case Ranks => "Images/Ranks"
  }

  /** The folder `f` of board `boardId`. */
  function Path(c: Config, boardId: int, f: Folder): string {
    BoardFolder(c, boardId) + Suffix(f)
  }

  /** An image folder: one that lives under `Images`. */
  predicate UnderImages(f: Folder) {
    f in {Avatars, Categories, Forums, Medals, Ranks}
  }

  // ---------------------------------------------------------------------------
  // Properties.

  /** Every folder lies under the board folder, and its suffix is what is
      left after it. */
  lemma PathUnderBoard(c: Config, boardId: int, f: Folder)
    ensures var p, b := Path(c, boardId, f), BoardFolder(c, boardId);
      |b| < |p| && p[..|b|] == b && p[|b|..] == Suffix(f)
  {
  }

  /** Every image folder lies under `Images` + `/`. */
  lemma ImageFoldersUnderImages(c: Config, boardId: int, f: Folder)
    requires UnderImages(f)
    ensures var p, i := Path(c, boardId, f), Path(c, boardId, Images) + "/";
      |i| < |p| && p[..|i|] == i
  {
    ImageSuffix(f);
    PrefixAfter(BoardFolder(c, boardId), Suffix(f), Suffix(Images) + "/");
  }

  /** The suffix of an image folder starts with `Images/`. */
  lemma ImageSuffix(f: Folder)
    requires UnderImages(f)
    ensures var s, i := Suffix(f), Suffix(Images) + "/";
      |i| < |s| && s[..|i|] == i
  {
  }

  /** A prefix stays a prefix behind a common head. */
  lemma PrefixAfter(b: string, s: string, t: string)
    requires |t| < |s| && s[..|t|] == t
    ensures |b + t| < |b + s| && (b + s)[..|b + t|] == b + t
  {
  }

  /** The seven suffixes differ pairwise. */
  lemma SuffixesDistinct(f: Folder, g: Folder)
    requires f != g
    ensures Suffix(f) != Suffix(g)
  {
    if |Suffix(f)| == |Suffix(g)| {
      assert {f, g} == {Forums, Medals};
      assert Suffix(f)[7] != Suffix(g)[7];
    }
  }

  /** Hence the seven folders of one board differ pairwise. */
  lemma FoldersDistinct(c: Config, boardId: int, f: Folder, g: Folder)
    requires f != g
    ensures Path(c, boardId, f) != Path(c, boardId, g)
  {
    SuffixesDistinct(f, g);
    PathUnderBoard(c, boardId, f);
    PathUnderBoard(c, boardId, g);
  }

  /** A formatted integer holds no `/`. */
  lemma NoSlash(n: int)
    ensures forall i :: 0 <= i < |IntToString(n)| ==> IntToString(n)[i] != '/'
  {
    if n < 0 {
      var d := NatToString(-n);
      forall i | 1 <= i < |IntToString(n)|
        ensures IntToString(n)[i] != '/'
      {
        assert IntToString(n)[i] == d[i - 1];
      }
    }
  }

  /** Two slash-free heads, each followed by `/`, that start equal strings
      are equal. */
  lemma FirstSlash(x: string, y: string, u: string, v: string)
    requires forall i :: 0 <= i < |x| ==> x[i] != '/'
    requires forall i :: 0 <= i < |y| ==> y[i] != '/'
    requires x + "/" + u == y + "/" + v
    ensures x == y
  {
    var w := x + "/" + u;
    SlashAt(x, u);
    SlashAt(y, v);
    if |x| != |y| {
      assert false;
    }
    assert x == w[..|x|];
  }

  lemma SlashAt(x: string, u: string)
    ensures (x + "/" + u)[|x|] == '/' && (x + "/" + u)[..|x|] == x
  {
  }

  /** Under a common root, different slash-free heads followed by `/` start
      different strings. */
  lemma Apart(r: string, x: string, y: string, u: string, v: string)
    requires forall i :: 0 <= i < |x| ==> x[i] != '/'
    requires forall i :: 0 <= i < |y| ==> y[i] != '/'
    requires x != y
    ensures r + x + "/" + u != r + y + "/" + v
  {
    if r + x + "/" + u == r + y + "/" + v {
      assert r + x + "/" + u == r + (x + "/" + u);
      assert r + y + "/" + v == r + (y + "/" + v);
      assert x + "/" + u == (r + x + "/" + u)[|r|..];
      FirstSlash(x, y, u, v);
    }
  }

  /** With a folder per board, no folder of one board is a folder of another. */
  lemma BoardsApart(c: Config, a: int, b: int, f: Folder, g: Folder)
    requires c.multiBoardFolders && a != b
    ensures Path(c, a, f) != Path(c, b, g)
  {
    IntToStringInjective(a, b);
    NoSlash(a);
    NoSlash(b);
    Apart(c.boardRoot, IntToString(a), IntToString(b), Suffix(f), Suffix(g));
  }

  /** Without it, every board uses the same folders. */
  lemma BoardsShare(c: Config, a: int, b: int, f: Folder)
    requires !c.multiBoardFolders
    ensures Path(c, a, f) == Path(c, b, f) == c.boardRoot + Suffix(f)
  {
  }
}
