/**
 * The generic syntax tree the walker consumes: the parser's `TreeNode`,
 * reduced to the three things the walker reads from it.
 */
module SyntaxTree {
  import opened Wrappers

  /** The token of a leaf: its name (`getValueToken()`) and matched text (`getValueValue()`). */
  datatype Token = Token(name: string, value: string)

  /** A tree node: its id (`#date`, `#entry`, ...), its token when it is a leaf, and its children in document order. */
  datatype Node = Node(id: string, token: Option<Token>, children: seq<Node>)

  /** `getValueToken() === name`: the node is a leaf carrying that token. */
  predicate HasToken(n: Node, name: string) {
    n.token.Some? && n.token.value.name == name
  }

  /** `getValueValue()` of a leaf. */
  function TokenValue(n: Node): string
    requires n.token.Some?
  {
    n.token.value.value
  }

  /** Index `k` holds the first node of `cs` that carries token `name`. */
  predicate IsFirstWithToken(cs: seq<Node>, name: string, k: int) {
    0 <= k < |cs| && HasToken(cs[k], name) && forall j :: 0 <= j < k ==> !HasToken(cs[j], name)
  }

  /** The `foreach ... if (getValueToken() === name) return` search: the index of the first child with the token. */
  function FirstWithToken(cs: seq<Node>, name: string): (r: Option<nat>)
    ensures r.None? <==> forall k :: 0 <= k < |cs| ==> !HasToken(cs[k], name)
    ensures r.Some? ==> IsFirstWithToken(cs, name, r.value)
    decreases |cs|
  {
    if cs == [] then None
    else if HasToken(cs[0], name) then Some(0)
    else match FirstWithToken(cs[1..], name)
      case None => None
      case Some(k) => Some(k + 1)
  }

  /** The search finds the one first index with the token. */
  lemma FirstIsUnique(cs: seq<Node>, name: string, k: nat)
    requires IsFirstWithToken(cs, name, k)
    ensures FirstWithToken(cs, name) == Some(k)
  {
  }

  /** The nodes of `cs` that satisfy `keep`, in their original order. */
  function Select(cs: seq<Node>, keep: Node -> bool): (r: seq<Node>)
    ensures |r| <= |cs|
    ensures forall k :: 0 <= k < |r| ==> keep(r[k])
    decreases |cs|
  {
    if cs == [] then []
    else Select(cs[..|cs| - 1], keep) + (if keep(cs[|cs| - 1]) then [cs[|cs| - 1]] else [])
  }

  function Last<T>(s: seq<T>): T
    requires s != []
  {
    s[|s| - 1]
  }
}
