/** The intrusive tree node of wepoll.c, and the two mirror sides its macros are written over. */
module TreeNodes {

  // The macros of the tree code take a `cis` and a `trans` side and are expanded once per mirror image.
  datatype Side = Left | Right {
    function Other(): Side {
      if Left? then Right else Left
    }
  }

  class TreeNode {
    var left: TreeNode?
    var right: TreeNode?
    var parent: TreeNode?
    var key: int
    var red: bool

    // tree_node_init
    constructor ()
      ensures left == null && right == null && parent == null && key == 0 && !red
    {
      left, right, parent, key, red := null, null, null, 0, false;
    }

    function Child(s: Side): TreeNode?
      reads this
    {
      if s.Left? then left else right
    }
  }
}
