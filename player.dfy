/** Player: the search for a HealthComponent in a scene subtree, the sword
    attack that arms the hitbox, and the tick that turns the four movement
    keys into a velocity. */
module Players {
  import opened Engine
  import opened Hitboxes

  /** How long one attack keeps the sword hitbox on, in seconds. */
  const AttackWindow: real := 0.2
  const HealthComponentName := "HealthComponent"

  /** A scene node as the search sees it: its name, whether it is a
      HealthComponent, and its children in order. */
  datatype SceneNode = SceneNode(name: string, isHealthComponent: bool, children: seq<SceneNode>)

  /** `m` is `n` or lies below it. */
  ghost predicate InSubtree(m: SceneNode, n: SceneNode)
    decreases n
  {
    m == n || exists i :: 0 <= i < |n.children| && InSubtree(m, n.children[i])
  }

  /** Some node of the subtree rooted at `n` is a HealthComponent. */
  ghost predicate HasHealthComponent(n: SceneNode)
    decreases n
  {
    n.isHealthComponent || exists i :: 0 <= i < |n.children| && HasHealthComponent(n.children[i])
  }

  /** The first child called `name`, which is the only one: sibling names
      are unique in a scene tree. */
  function ChildNamed(children: seq<SceneNode>, name: string): (r: Option<SceneNode>)
    ensures r.Some? ==> r.value in children && r.value.name == name
    ensures r.None? ==> forall i :: 0 <= i < |children| ==> children[i].name != name
  {
    if children == [] then None
    else if children[0].name == name then Some(children[0])
    else ChildNamed(children[1..], name)
  }

  /** `FindHealthComponent`: the node itself if it is one; else its child
      called "HealthComponent" if that is one; else the first hit of a
      depth-first search of the children in order. */
  function FindHealthComponent(n: SceneNode): (r: Option<SceneNode>)
    ensures n.isHealthComponent ==> r == Some(n)
    ensures r.Some? ==> r.value.isHealthComponent
    decreases n, 1
  {
    if n.isHealthComponent then Some(n)
    else
      var byName := ChildNamed(n.children, HealthComponentName);
      if byName.Some? && byName.value.isHealthComponent then byName
      else SearchChildren(n.children)
  }

  /** The `foreach` over the children: the first child whose search finds
      something decides. */
  function SearchChildren(children: seq<SceneNode>): (r: Option<SceneNode>)
    ensures children == [] ==> r.None?
    ensures r.Some? ==> r.value.isHealthComponent
    decreases children, 0
  {
    if children == [] then None
    else
      var found := FindHealthComponent(children[0]);
      if found.Some? then found else SearchChildren(children[1..])
  }

  /** A direct child called "HealthComponent" wins over anything deeper,
      even over an earlier child whose subtree holds one. */
  lemma NamedChildPreferred(n: SceneNode, c: SceneNode)
    requires !n.isHealthComponent && c.isHealthComponent
    requires ChildNamed(n.children, HealthComponentName) == Some(c)
    ensures FindHealthComponent(n) == Some(c)
  {
  }

  /** Whatever the search returns is a HealthComponent in the subtree. */
  lemma {:induction false} FindIsSound(n: SceneNode)
    requires FindHealthComponent(n).Some?
    ensures FindHealthComponent(n).value.isHealthComponent
    ensures InSubtree(FindHealthComponent(n).value, n)
    decreases n, 1
  {
    var r := FindHealthComponent(n).value;
    if !n.isHealthComponent {
      var byName := ChildNamed(n.children, HealthComponentName);
      if byName.Some? && byName.value.isHealthComponent {
        var i :| 0 <= i < |n.children| && n.children[i] == byName.value;
        assert InSubtree(r, n.children[i]);
      } else {
        var i := SearchChildrenIsSound(n.children);
        assert InSubtree(r, n.children[i]);
      }
    }
  }

  /** The hit of SearchChildren comes from child `i`, and no earlier child's
      search found anything. */
  lemma {:induction false} SearchChildrenIsSound(children: seq<SceneNode>) returns (i: nat)
    requires SearchChildren(children).Some?
    ensures i < |children| && FindHealthComponent(children[i]) == SearchChildren(children)
    ensures forall j :: 0 <= j < i ==> FindHealthComponent(children[j]).None?
    ensures SearchChildren(children).value.isHealthComponent
    ensures InSubtree(SearchChildren(children).value, children[i])
    decreases children, 0
  {
    if FindHealthComponent(children[0]).Some? {
      i := 0;
      FindIsSound(children[0]);
    } else {
      var k := SearchChildrenIsSound(children[1..]);
      i := k + 1;
      assert children[1..][k] == children[i];
      assert forall j :: 1 <= j < i ==> children[j] == children[1..][j - 1];
    }
  }

  /** The search comes back empty exactly when the subtree holds no
      HealthComponent. */
  lemma {:induction false} FindIsComplete(n: SceneNode)
    ensures FindHealthComponent(n).None? <==> !HasHealthComponent(n)
    decreases n, 1
  {
    if FindHealthComponent(n).Some? {
      FindIsSound(n);
      SubtreeHasHealthComponent(FindHealthComponent(n).value, n);
    } else {
      assert !n.isHealthComponent;
      forall i | 0 <= i < |n.children|
        ensures !HasHealthComponent(n.children[i])
      {
        SearchChildrenMisses(n.children, i);
        FindIsComplete(n.children[i]);
      }
    }
  }

  lemma {:induction false} SearchChildrenMisses(children: seq<SceneNode>, i: nat)
    requires SearchChildren(children).None? && i < |children|
    ensures FindHealthComponent(children[i]).None?
    decreases children
  {
    if i > 0 {
      SearchChildrenMisses(children[1..], i - 1);
    }
  }

  lemma {:induction false} SubtreeHasHealthComponent(m: SceneNode, n: SceneNode)
    requires m.isHealthComponent && InSubtree(m, n)
    ensures HasHealthComponent(n)
    decreases n
  {
    if m != n {
      var i :| 0 <= i < |n.children| && InSubtree(m, n.children[i]);
      SubtreeHasHealthComponent(m, n.children[i]);
    }
  }

  /** One movement axis from its two keys: +1, -1, or 0 when both or
      neither are held. */
  function Axis(positive: bool, negative: bool): (v: int)
    ensures -1 <= v <= 1
    ensures v == 0 <==> positive == negative
    ensures v == 1 <==> positive && !negative
  {
    (if positive then 1 else 0) - (if negative then 1 else 0)
  }

  /** The player's velocity: zero, or `speed` times the normalised intent
      vector (`intentX`, `intentY`). */
  datatype Motion = Still | Moving(speed: real, intentX: int, intentY: int)

  class Player {
    const speed: real
    /** The Hitbox under the Sword child, when both exist. */
    const attackHitbox: Hitbox?
    var velocity: Motion

    constructor Ready(speed: real, attackHitbox: Hitbox?)
      ensures this.speed == speed && this.attackHitbox == attackHitbox && velocity == Still
    {
      this.speed := speed;
      this.attackHitbox := attackHitbox;
      velocity := Still;
    }

    /** Arms the sword hitbox for one attack window, once; without a
        hitbox nothing happens. */
    method Attack()
      modifies attackHitbox
      ensures attackHitbox != null ==>
        attackHitbox.monitoring && attackHitbox.pendingDisables == old(attackHitbox.pendingDisables) + [AttackWindow]
    {
      if attackHitbox != null {
        attackHitbox.Enable(AttackWindow);
      }
    }

    /** One physics tick: the attack key is handled first, then the held
        movement keys give the intent; no net input means no motion. */
    method PhysicsProcess(attackJustPressed: bool, right: bool, left: bool, down: bool, up: bool)
      modifies this, attackHitbox
      ensures attackJustPressed && attackHitbox != null ==>
        attackHitbox.monitoring && attackHitbox.pendingDisables == old(attackHitbox.pendingDisables) + [AttackWindow]
      ensures !attackJustPressed && attackHitbox != null ==> unchanged(attackHitbox)
      ensures velocity == Still <==> right == left && down == up
      ensures velocity != Still ==> velocity == Moving(speed, Axis(right, left), Axis(down, up))
    {
      var intentX, intentY := 0, 0;
      if attackJustPressed {
        Attack();
      }
      if right {
        intentX := intentX + 1;
      }
      if left {
        intentX := intentX - 1;
      }
      if down {
        intentY := intentY + 1;
      }
      if up {
        intentY := intentY - 1;
      }
      if intentX != 0 || intentY != 0 {
        velocity := Moving(speed, intentX, intentY);
      } else {
        velocity := Still;
      }
    }
  }
}
