/** A forest: an ordered, growable list of trees, and the clean-up a tree
    string from a Nexus trees block gets before it is parsed. */
module Forests {
  import opened Exceptions
  import opened JavaText
  import opened Taxa

  /** A tree string without its leading `name=` label: the text after the
      first `=`; the whole string when it has no `=` (`IndexOf` is then -1). */
  function StripLabel(s: string): string
  {
    s[IndexOf(s, '=') + 1..]
  }

  /** What stripping removes: exactly the text up to and including the
      first `=`, and nothing when there is none. */
  lemma StripLabelRemovesFirstLabel(s: string)
    ensures '=' !in s ==> StripLabel(s) == s
    ensures '=' in s ==> exists e :: 0 <= e < |s| && s[e] == '=' && '=' !in s[..e] && StripLabel(s) == s[e + 1..]
  {
    IndexOfIsFirst(s, '=');
    var e := IndexOf(s, '=');
    if e >= 0 {
      assert '=' !in s[..e] by {
        forall k | 0 <= k < e ensures s[..e][k] != '=' {
          assert s[..e][k] == s[k];
        }
      }
    }
  }

  /** The clean-up of a Nexus tree string: drop a leading `name=` label,
      then make sure the string ends with `;`, appending one only when it is
      missing. */
  method NormalizeTreeString(treeString: string) returns (t: string)
    ensures EndsWith(t, ";")
    ensures EndsWith(StripLabel(treeString), ";") ==> t == StripLabel(treeString)
    ensures !EndsWith(StripLabel(treeString), ";") ==> t == StripLabel(treeString) + ";"
  {
    t := treeString;
    var equalsIndex := IndexOf(t, '=');
    if equalsIndex >= 0 {
      t := t[equalsIndex + 1..];
    }
    if !EndsWith(t, ";") {
      t := t + ";";
      assert t[|t| - 1..] == ";";
    }
  }

  /** A string with no label that already ends in `;` is left as it is. */
  lemma CleanTreeStringUnchanged(s: string)
    requires '=' !in s && EndsWith(s, ";")
    ensures StripLabel(s) == s && EndsWith(StripLabel(s), ";")
  {
    IndexOfIsFirst(s, '=');
  }

  class Forest {
    var trees: seq<Tree>

    /** `new Forest()`. */
    constructor ()
      ensures trees == []
    {
      trees := [];
    }

    /** `new Forest(Tree[])`: the trees of the array, in array order. */
    constructor FromArray(treeArray: array<Tree>)
      ensures trees == treeArray[..]
      ensures Size() == treeArray.Length
    {
      trees := [];
      new;
      var i := 0;
      while i < treeArray.Length
        invariant 0 <= i <= treeArray.Length
        invariant trees == treeArray[..i]
      {
        trees := trees + [treeArray[i]];
        i := i + 1;
      }
    }

    /** `add(tree)`: appends at the end and reports success. */
    method Add(tree: Tree) returns (changed: bool)
      modifies this
      ensures trees == old(trees) + [tree]
      ensures changed
      ensures Size() == old(Size()) + 1 && Get(Size() - 1) == Ok(tree)
    {
      trees := trees + [tree];
      changed := true;
    }

    /** `get(n)`: the `n`-th tree, or an index error outside `[0, size())`. */
    function Get(n: int): (r: Result<Tree>)
      reads this
      ensures r.Ok? <==> 0 <= n < |trees|
      ensures r.Ok? ==> r.value == trees[n]
      ensures r.Err? ==> r.error == IndexOutOfBounds(n)
    {
      if 0 <= n < |trees| then Ok(trees[n]) else Err(IndexOutOfBounds(n))
    }

    /** `size()`. */
    function Size(): (n: nat)
      reads this
      ensures n == |trees|
    {
      |trees|
    }
  }
}
