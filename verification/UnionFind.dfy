/** The union-find inside scripts/ledgerboard.py's components: the `parent` dictionary, `find` with path
    halving, and the join, against connectedness by walks. */
module UnionFind {

  // ----- connectedness -----

  ghost predicate Adjacent<T(!new)>(edges: set<(T, T)>, x: T, y: T) {
    (x, y) in edges || (y, x) in edges
  }

  ghost predicate IsWalk<T(!new)>(edges: set<(T, T)>, w: seq<T>) {
    w != [] && forall i | 0 <= i < |w| - 1 :: Adjacent(edges, w[i], w[i+1])
  }

  ghost predicate WalkBetween<T(!new)>(edges: set<(T, T)>, w: seq<T>, x: T, y: T) {
    IsWalk(edges, w) && w[0] == x && w[|w|-1] == y
  }

  /** A walk along edges, taken either way, leads from `x` to `y`. */
  ghost predicate Connected<T(!new)>(edges: set<(T, T)>, x: T, y: T) {
    exists w :: WalkBetween(edges, w, x, y)
  }

  /** No edge leaves `s`. */
  ghost predicate IsClosed<T(!new)>(edges: set<(T, T)>, s: set<T>) {
    forall e | e in edges :: e.0 in s <==> e.1 in s
  }

  lemma {:induction false} WalkKeepsRoot<T(!new)>(edges: set<(T, T)>, root: map<T, T>, w: seq<T>)
    requires IsWalk(edges, w)
    requires forall e | e in edges :: e.0 in root && e.1 in root && root[e.0] == root[e.1]
    requires w[0] in root
    ensures w[|w|-1] in root && root[w[|w|-1]] == root[w[0]]
  {
    if |w| > 1 {
      assert Adjacent(edges, w[0], w[1]);
      assert forall i | 0 <= i < |w[1..]| - 1 :: w[1..][i] == w[i+1] && Adjacent(edges, w[i+1], w[i+2]);
      WalkKeepsRoot(edges, root, w[1..]);
    }
  }

  lemma ConnectedToItself<T(!new)>(edges: set<(T, T)>, x: T)
    ensures Connected(edges, x, x)
  {
    assert WalkBetween(edges, [x], x, x);
  }

  lemma WalkOn<T(!new)>(edges: set<(T, T)>, x: T, y: T, z: T)
    requires Connected(edges, x, y) && Adjacent(edges, y, z)
    ensures Connected(edges, x, z)
  {
    var w :| WalkBetween(edges, w, x, y);
    var v := w + [z];
    forall i | 0 <= i < |v| - 1 ensures Adjacent(edges, v[i], v[i+1]) {
      assert i < |w| - 1 ==> Adjacent(edges, w[i], w[i+1]);
    }
    assert WalkBetween(edges, v, x, z);
  }

  lemma {:induction false} WalkJoins<T(!new)>(edges: set<(T, T)>, x: T, w: seq<T>)
    requires IsWalk(edges, w) && Connected(edges, x, w[0])
    ensures Connected(edges, x, w[|w|-1])
  {
    if |w| > 1 {
      var n := |w| - 1;
      assert forall i | 0 <= i < n - 1 :: w[..n][i] == w[i] && Adjacent(edges, w[i], w[i+1]);
      WalkJoins(edges, x, w[..n]);
      assert Adjacent(edges, w[n-1], w[n]);
      WalkOn(edges, x, w[n-1], w[n]);
    }
  }

  lemma ConnectedTransitive<T(!new)>(edges: set<(T, T)>, x: T, y: T, z: T)
    requires Connected(edges, x, y) && Connected(edges, y, z)
    ensures Connected(edges, x, z)
  {
    var w :| WalkBetween(edges, w, y, z);
    WalkJoins(edges, x, w);
  }

  lemma {:induction false} WalkBack<T(!new)>(edges: set<(T, T)>, w: seq<T>)
    requires IsWalk(edges, w)
    ensures Connected(edges, w[|w|-1], w[0])
  {
    if |w| == 1 {
      ConnectedToItself(edges, w[0]);
    } else {
      assert forall i | 0 <= i < |w| - 2 :: w[1..][i] == w[i+1] && Adjacent(edges, w[i+1], w[i+2]);
      WalkBack(edges, w[1..]);
      assert Adjacent(edges, w[0], w[1]);
      WalkOn(edges, w[|w|-1], w[1], w[0]);
    }
  }

  lemma ConnectedSymmetric<T(!new)>(edges: set<(T, T)>, x: T, y: T)
    requires Connected(edges, x, y)
    ensures Connected(edges, y, x)
  {
    var w :| WalkBetween(edges, w, x, y);
    WalkBack(edges, w);
  }

  // ----- the forest -----

  /** The parent of `t` is nearer to its root, by `height`; a root is its own parent. */
  ghost predicate IsNode<T(!new)>(parent: map<T, T>, root: map<T, T>, height: map<T, nat>, t: T)
    requires parent.Keys == root.Keys == height.Keys && t in parent
  {
    var p := parent[t];
    && p in parent && root[t] in parent
    && root[p] == root[t] && root[root[t]] == root[t]
    && (p == t <==> root[t] == t)
    && (p != t ==> height[p] < height[t])
  }

  /** `parent` is a forest: `root` is where each member's parents lead, `height` falls on the way there. */
  ghost predicate IsForest<T(!new)>(parent: map<T, T>, root: map<T, T>, height: map<T, nat>) {
    && parent.Keys == root.Keys == height.Keys
    && forall t {:trigger IsNode(parent, root, height, t)} | t in parent :: IsNode(parent, root, height, t)
  }

  /** The roots join exactly what the edges connect. */
  ghost predicate Joins<T(!new)>(edges: set<(T, T)>, root: map<T, T>) {
    && (forall e | e in edges :: e.0 in root && e.1 in root && root[e.0] == root[e.1])
    && (forall s, t | IsClosed(edges, s) && t in root :: t in s <==> root[t] in s)
  }

  /** Two members have one root exactly when a walk connects them. */
  lemma SameRootIffConnected<T(!new)>(edges: set<(T, T)>, parent: map<T, T>, root: map<T, T>, height: map<T, nat>,
                                      x: T, y: T)
    requires IsForest(parent, root, height) && Joins(edges, root) && x in parent && y in parent
    ensures root[x] == root[y] <==> Connected(edges, x, y)
  {
    if Connected(edges, x, y) {
      var w :| WalkBetween(edges, w, x, y);
      WalkKeepsRoot(edges, root, w);
    }
    if root[x] == root[y] {
      var reached := set t | t in parent && Connected(edges, x, t);
      forall e | e in edges ensures e.0 in reached <==> e.1 in reached {
        assert Adjacent(edges, e.0, e.1) && Adjacent(edges, e.1, e.0);
        if e.0 in reached {
          WalkOn(edges, x, e.0, e.1);
        }
        if e.1 in reached {
          WalkOn(edges, x, e.1, e.0);
        }
      }
      assert IsClosed(edges, reached);
      ConnectedToItself(edges, x);
    }
  }

  lemma Separate<T(!new)>(ids: set<T>)
    ensures var own := map t | t in ids :: t;
            IsForest(own, own, map t | t in ids :: 0) && Joins({}, own)
  {
  }

  /** Halving one step of a path keeps the forest, its roots and its heights. */
  lemma Halved<T(!new)>(parent: map<T, T>, root: map<T, T>, height: map<T, nat>, t: T)
    requires IsForest(parent, root, height) && t in parent && parent[t] != t
    ensures parent[t] in parent && parent[parent[t]] in parent
    ensures height[parent[parent[t]]] < height[t] && root[parent[parent[t]]] == root[t]
    ensures IsForest(parent[t := parent[parent[t]]], root, height)
  {
    assert IsNode(parent, root, height, t);
    assert IsNode(parent, root, height, parent[t]);
    var halved := parent[t := parent[parent[t]]];
    forall u | u in halved ensures IsNode(halved, root, height, u) {
      assert IsNode(parent, root, height, u);
    }
  }

  /** `find`: the root, halving the path walked. */
  method Find<T(!new,==)>(parent: map<T, T>, t: T, ghost root: map<T, T>, ghost height: map<T, nat>)
    returns (r: T, halved: map<T, T>)
    requires IsForest(parent, root, height) && t in parent
    ensures r == root[t] && r in parent && IsForest(halved, root, height)
  {
    r, halved := t, parent;
    while halved[r] != r
      invariant IsForest(halved, root, height)
      invariant r in halved && root[r] == root[t]
      decreases height[r]
    {
      Halved(halved, root, height, r);
      halved := halved[r := halved[halved[r]]];
      r := halved[r];
    }
    assert IsNode(halved, root, height, r);
  }

  /** Hanging the root `below` under the root `above`. */
  lemma Hung<T(!new)>(parent: map<T, T>, root: map<T, T>, height: map<T, nat>, below: T, above: T)
    returns (root': map<T, T>, height': map<T, nat>)
    requires IsForest(parent, root, height) && below in parent && above in parent
    requires root[below] == below && root[above] == above
    ensures root'.Keys == root.Keys
    ensures forall t | t in root :: root'[t] == if root[t] == below then above else root[t]
    ensures IsForest(parent[below := above], root', height')
  {
    root', height' := root, height;
    assert IsNode(parent, root, height, below);
    if below == above {
      assert parent[below := above] == parent;
    } else {
      root' := map t | t in root :: if root[t] == below then above else root[t];
      height' := map t | t in height :: if root[t] == below then height[t] + height[above] + 1 else height[t];
      var hung := parent[below := above];
      forall t | t in hung ensures IsNode(hung, root', height', t) {
        assert IsNode(parent, root, height, t);
      }
    }
  }

  /** `parent[find(x)] = find(y)`: the right-hand side is found first. */
  method Unite<T(!new,==)>(parent: map<T, T>, x: T, y: T, ghost edges: set<(T, T)>,
                           ghost root: map<T, T>, ghost height: map<T, nat>)
    returns (united: map<T, T>, ghost root': map<T, T>, ghost height': map<T, nat>)
    requires IsForest(parent, root, height) && Joins(edges, root) && x in parent && y in parent
    ensures united.Keys == parent.Keys
    ensures IsForest(united, root', height') && Joins(edges + {(x, y)}, root')
  {
    var below, above;
    above, united := Find(parent, y, root, height);
    below, united := Find(united, x, root, height);
    assert IsNode(parent, root, height, x) && IsNode(parent, root, height, y);
    root', height' := Hung(united, root, height, below, above);
    united := united[below := above];
    UnitedJoins(edges, root, root', x, y);
  }

  lemma UnitedJoins<T(!new)>(edges: set<(T, T)>, root: map<T, T>, root': map<T, T>, x: T, y: T)
    requires Joins(edges, root) && x in root && y in root && root'.Keys == root.Keys
    requires forall t | t in root :: root'[t] == if root[t] == root[x] then root[y] else root[t]
    ensures Joins(edges + {(x, y)}, root')
  {
    forall s, t | IsClosed(edges + {(x, y)}, s) && t in root' ensures t in s <==> root'[t] in s {
      assert (x, y) in edges + {(x, y)};
      assert forall e | e in edges :: e in edges + {(x, y)};
      assert IsClosed(edges, s);
      assert x in s <==> y in s;
      assert x in s <==> root[x] in s;
      assert y in s <==> root[y] in s;
      assert t in s <==> root[t] in s;
    }
  }
}
