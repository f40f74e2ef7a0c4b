/**
 * The keyboard object: the key meshes of the loaded model are registered
 * under the event code their name ends in, physical key events press and
 * release them by code, and a click presses the key mesh it hits, hands the
 * character that key stands for to the input listeners, and releases it on
 * the next pointer-up.
 *
 * Scene-graph objects are values carrying an identity, their
 * `userData.name` and their parent; a key's down and up positions are
 * abstracted to whether they were computed (`prepared`) and which one the
 * key currently sits at (`down`).
 */
module Keyboard {
  import opened Wrappers
  import opened Strings
  import MonitorCommon

  /** A scene-graph object: its identity, its `userData.name` (absent when unset), and its parent. */
  datatype Node = Node(id: nat, name: Option<string>, parent: Option<Node>)

  // ---------------------------------------------------------------------------
  // key codes: `name.match(/-(.*)$/)?.[1]`

  /** `-(.*)$` matches at `i`: a dash there and no line terminator after it up to the end. */
  predicate DashMatchAt(name: string, i: int)
  {
    0 <= i < |name| && name[i] == '-' && TerminatorFree(name[i + 1..])
  }

  /** The leftmost position at or after `from` where the pattern matches. */
  function FirstDashMatch(name: string, from: nat): (r: Option<nat>)
    ensures r.Some? ==> from <= r.value && DashMatchAt(name, r.value)
    ensures forall j :: from <= j && (r.None? || j < r.value) ==> !DashMatchAt(name, j)
    decreases |name| - from
  {
    if from >= |name| then None
    else if DashMatchAt(name, from) then Some(from)
    else FirstDashMatch(name, from + 1)
  }

  /**
   * The code a mesh name carries: what follows the leftmost matching dash.
   * No match, and an empty capture (which the source treats as false), give none.
   */
  function KeySuffix(name: string): (r: Option<string>)
    ensures r.Some? ==> 1 <= |r.value| < |name| && TerminatorFree(r.value)
    ensures r.Some? ==> name[|name| - |r.value| - 1] == '-' && name[|name| - |r.value|..] == r.value
  {
    match FirstDashMatch(name, 0)
    case None => None
    case Some(i) => if i + 1 < |name| then Some(name[i + 1..]) else None
  }

  /** The code of a node, when it has a name that carries one. */
  function NodeCode(n: Node): (r: Option<string>)
  {
    if n.name.Some? then KeySuffix(n.name.value) else None
  }

  /** A name without a dash carries no code. */
  lemma NoDashNoCode(name: string)
    requires '-' !in name
    ensures KeySuffix(name) == None
  {
    assert forall j :: !DashMatchAt(name, j);
  }

  /** With no dash before it, the first dash starts the code: `"Row1-KeyA"` carries `"KeyA"`, `"a-b-c"` carries `"b-c"`. */
  lemma {:induction false} CodeAfterFirstDash(prefix: string, code: string)
    requires '-' !in prefix && TerminatorFree(code)
    ensures KeySuffix(prefix + "-" + code) == if |code| > 0 then Some(code) else None
  {
    var name := prefix + "-" + code;
    assert name[|prefix| + 1..] == code;
    assert DashMatchAt(name, |prefix|);
    forall j | 0 <= j < |prefix|
      ensures !DashMatchAt(name, j)
    {
      assert name[j] == prefix[j];
    }
  }

  // ---------------------------------------------------------------------------
  // toKeyCharacter

  /** The punctuation codes and the characters they type. */
  const Punctuation: map<string, string> := map[
    "Backquote" := "`", "Minus" := "-", "Equal" := "=", "BracketLeft" := "[",
    "BracketRight" := "]", "Backslash" := "\\", "Semicolon" := ";", "Quote" := "'",
    "Comma" := ",", "Period" := ".", "Slash" := "/", "Space" := " "]

  /**
   * The character a key mesh named `name` stands for: none without a code;
   * for a `Key…`/`Digit…` code, the code with its first "Key" and then its
   * first "Digit" removed, lower-cased; a punctuation code by the table;
   * any other code unchanged.
   */
  function ToKeyCharacter(name: string): (r: Option<string>)
    ensures r.Some? <==> KeySuffix(name).Some?
  {
    match KeySuffix(name)
    case None => None
    case Some(code) =>
      if StartsWith(code, "Key") || StartsWith(code, "Digit") then
        Some(Lower(RemoveFirst(RemoveFirst(code, "Key"), "Digit")))
      else if code in Punctuation then Some(Punctuation[code])
      else Some(code)
  }

  /** A string without a 'K' holds no "Key". */
  lemma NoKeyIn(s: string)
    requires forall i :: 0 <= i < |s| ==> s[i] != 'K'
    ensures forall i :: !OccursAt(s, "Key", i)
  {
    forall i
      ensures !OccursAt(s, "Key", i)
    {
      if 0 <= i && i + 3 <= |s| {
        assert s[i..i + 3][0] == s[i];
      }
    }
  }

  /** A letter key types its lower-case letter: `…-KeyA` gives `"a"`. */
  lemma {:induction false} LetterKey(prefix: string, c: char)
    requires '-' !in prefix && 'A' <= c <= 'Z'
    ensures ToKeyCharacter(prefix + "-Key" + [c]) == Some([(c as int + 32) as char])
  {
    var code := "Key" + [c];
    var name := prefix + "-Key" + [c];
    assert name == prefix + "-" + code;
    CodeAfterFirstDash(prefix, code);
    assert KeySuffix(name) == Some(code);
    assert code[..3] == "Key";
    RemoveFirstAtStart(code, "Key");
    assert code[3..] == [c];
    assert RemoveFirst([c], "Digit") == [c];
    assert Lower([c]) == [LowerChar(c)];
  }

  /** A digit key types its digit: `…-Digit5` gives `"5"`. */
  lemma {:induction false} DigitKey(prefix: string, d: char)
    requires '-' !in prefix && '0' <= d <= '9'
    ensures ToKeyCharacter(prefix + "-Digit" + [d]) == Some([d])
  {
    var code := "Digit" + [d];
    var name := prefix + "-Digit" + [d];
    assert name == prefix + "-" + code;
    CodeAfterFirstDash(prefix, code);
    assert KeySuffix(name) == Some(code);
    assert code[..5] == "Digit";
    NoKeyIn(code);
    RemoveFirstAbsent(code, "Key");
    RemoveFirstAtStart(code, "Digit");
    assert code[5..] == [d];
    assert Lower([d]) == [LowerChar(d)];
  }

  /** Punctuation codes type the character the table gives them. */
  lemma {:induction false} PunctuationKey(prefix: string, code: string)
    requires '-' !in prefix && code in Punctuation
    ensures ToKeyCharacter(prefix + "-" + code) == Some(Punctuation[code])
  {
    PunctuationCodeShape(code);
    assert code[..3][0] == code[0];
    assert code[..5][0] == code[0];
    CodeAfterFirstDash(prefix, code);
  }

  /**
   * Every punctuation code is a word of at least five ASCII letters, none
   * starting with 'K' or 'D', and stands for one printable ASCII character.
   */
  lemma PunctuationCodeShape(code: string)
    requires code in Punctuation
    ensures |code| >= 5 && code[0] != 'K' && code[0] != 'D'
    ensures forall i :: 0 <= i < |code| ==> 'A' <= code[i] <= 'z'
    ensures |Punctuation[code]| == 1 && ' ' <= Punctuation[code][0] <= '~'
  {
    if code == "Backquote" {
    } else if code == "Minus" {
    } else if code == "Equal" {
    } else if code == "BracketLeft" {
    } else if code == "BracketRight" {
    } else if code == "Backslash" {
    } else if code == "Semicolon" {
    } else if code == "Quote" {
    } else if code == "Comma" {
    } else if code == "Period" {
    } else if code == "Slash" {
    } else {
      assert code == "Space";
    }
  }

  /** Any other code is its own character: `Enter`, `Backspace` and `ShiftLeft` come out unchanged. */
  lemma {:induction false} OtherKey(prefix: string, code: string)
    requires '-' !in prefix && |code| > 0 && TerminatorFree(code)
    requires !StartsWith(code, "Key") && !StartsWith(code, "Digit") && code !in Punctuation
    ensures ToKeyCharacter(prefix + "-" + code) == Some(code)
  {
    CodeAfterFirstDash(prefix, code);
  }

  /** A code that is exactly "Key" stands for the empty string, which the click handler then ignores. */
  lemma {:induction false} BareKeyIsEmpty(prefix: string)
    requires '-' !in prefix
    ensures ToKeyCharacter(prefix + "-Key") == Some("")
  {
    assert prefix + "-Key" == prefix + "-" + "Key";
    CodeAfterFirstDash(prefix, "Key");
    RemoveFirstAtStart("Key", "Key");
    assert "Key"[3..] == "";
  }

  /** Letters, digits and punctuation give exactly one character the monitors' key filter accepts. */
  lemma {:induction false} ClickedCharactersAreTypeable(prefix: string, c: char, code: string)
    requires '-' !in prefix
    ensures 'A' <= c <= 'Z' ==>
              var r := ToKeyCharacter(prefix + "-Key" + [c]); r.Some? && MonitorCommon.IsInsertable(r.value)
    ensures '0' <= c <= '9' ==>
              var r := ToKeyCharacter(prefix + "-Digit" + [c]); r.Some? && MonitorCommon.IsInsertable(r.value)
    ensures code in Punctuation ==>
              var r := ToKeyCharacter(prefix + "-" + code); r.Some? && MonitorCommon.IsInsertable(r.value)
  {
    if 'A' <= c <= 'Z' {
      LetterKey(prefix, c);
    }
    if '0' <= c <= '9' {
      DigitKey(prefix, c);
    }
    if code in Punctuation {
      PunctuationKey(prefix, code);
      PunctuationCodeShape(code);
      MonitorCommon.KeyClassIsPrintableAscii(Punctuation[code][0]);
    }
  }

  // ---------------------------------------------------------------------------
  // registration in setupModel

  /**
   * What loading the model registers: the code-to-mesh map, the meshes whose
   * down and up positions were computed, and whether a key without a name
   * aborted the load callback.
   */
  datatype Registry = Registry(keyObjects: map<string, Node>, prepared: set<Node>, failed: bool)

  /** One key of a row: a nameless key aborts, a name without a code is skipped, any other is stored under its code. */
  function RegisterKey(r: Registry, key: Node): (next: Registry)
  {
    if r.failed then r
    else if key.name.None? then r.(failed := true)
    else match KeySuffix(key.name.value)
      case None => r
      case Some(code) => Registry(r.keyObjects[code := key], r.prepared + {key}, false)
  }

  /** The keys in order. */
  function RegisterAll(r: Registry, keys: seq<Node>): (next: Registry)
  {
    if |keys| == 0 then r else RegisterKey(RegisterAll(r, keys[..|keys| - 1]), keys[|keys| - 1])
  }

  /** The rows' children in order. */
  function Flatten(rows: seq<seq<Node>>): (r: seq<Node>)
  {
    if |rows| == 0 then [] else Flatten(rows[..|rows| - 1]) + rows[|rows| - 1]
  }

  /** The last key whose name carries `code`. */
  function LastWithCode(keys: seq<Node>, code: string): (r: Option<Node>)
    ensures r.Some? ==> r.value in keys && NodeCode(r.value) == Some(code)
  {
    if |keys| == 0 then None
    else if NodeCode(keys[|keys| - 1]) == Some(code) then Some(keys[|keys| - 1])
    else LastWithCode(keys[..|keys| - 1], code)
  }

  /** Every stored mesh has computed positions and a name carrying the code it is stored under. */
  ghost predicate Registered(keyObjects: map<string, Node>, prepared: set<Node>)
  {
    forall code | code in keyObjects :: keyObjects[code] in prepared && NodeCode(keyObjects[code]) == Some(code)
  }

  lemma {:induction false} RegisterAllAppend(r: Registry, a: seq<Node>, b: seq<Node>)
    ensures RegisterAll(r, a + b) == RegisterAll(RegisterAll(r, a), b)
    decreases |b|
  {
    if |b| == 0 {
      assert a + b == a;
    } else {
      assert (a + b)[..|a + b| - 1] == a + b[..|b| - 1];
      RegisterAllAppend(r, a, b[..|b| - 1]);
    }
  }

  lemma {:induction false} FailedStays(r: Registry, keys: seq<Node>)
    requires r.failed
    ensures RegisterAll(r, keys) == r
  {
    if |keys| > 0 {
      FailedStays(r, keys[..|keys| - 1]);
    }
  }

  /** Registration keeps every stored mesh prepared and stored under its own code; prepared meshes stay prepared. */
  lemma {:induction false} RegisterAllKeepsRegistered(r: Registry, keys: seq<Node>)
    requires Registered(r.keyObjects, r.prepared)
    ensures var r' := RegisterAll(r, keys);
            Registered(r'.keyObjects, r'.prepared) && r.prepared <= r'.prepared
  {
    if |keys| > 0 {
      RegisterAllKeepsRegistered(r, keys[..|keys| - 1]);
    }
  }

  /** A load aborts exactly when some key has no name. */
  lemma {:induction false} RegisterFailsOnNameless(r: Registry, keys: seq<Node>)
    ensures RegisterAll(r, keys).failed <==> r.failed || exists i :: 0 <= i < |keys| && keys[i].name.None?
  {
    if |keys| > 0 {
      var init := keys[..|keys| - 1];
      RegisterFailsOnNameless(r, init);
      if exists i :: 0 <= i < |init| && init[i].name.None? {
        var i :| 0 <= i < |init| && init[i].name.None?;
        assert keys[i] == init[i];
      }
      if exists i :: 0 <= i < |keys| && keys[i].name.None? {
        var i :| 0 <= i < |keys| && keys[i].name.None?;
        if i < |keys| - 1 {
          assert init[i] == keys[i];
        }
      }
    }
  }

  /**
   * When every key has a name, each code maps to the last key carrying it;
   * codes no key carries keep their earlier mesh; only keys with a code are
   * prepared.
   */
  lemma {:induction false} RegisterLastWins(r: Registry, keys: seq<Node>, code: string)
    requires !r.failed && forall i :: 0 <= i < |keys| ==> keys[i].name.Some?
    ensures var r' := RegisterAll(r, keys);
            && !r'.failed
            && (code in r'.keyObjects <==> code in r.keyObjects || LastWithCode(keys, code).Some?)
            && (LastWithCode(keys, code).Some? ==> r'.keyObjects[code] == LastWithCode(keys, code).value)
            && (LastWithCode(keys, code).None? && code in r.keyObjects ==> r'.keyObjects[code] == r.keyObjects[code])
            && r'.prepared == r.prepared + set k | k in keys && NodeCode(k).Some?
  {
    if |keys| > 0 {
      var init := keys[..|keys| - 1];
      var last := keys[|keys| - 1];
      RegisterLastWins(r, init, code);
      assert keys == init + [last];
    }
  }

  lemma {:induction false} FlattenAppend(rows: seq<seq<Node>>, i: nat)
    requires i < |rows|
    ensures Flatten(rows[..i + 1]) == Flatten(rows[..i]) + rows[i]
  {
    assert rows[..i + 1][..i] == rows[..i];
  }

  // ---------------------------------------------------------------------------
  // findKey: the ancestor walk

  /** `current.parent?.userData.name?.startsWith("Row")`: the node is a key of a keyboard row. */
  predicate IsRowKey(n: Node)
  {
    n.parent.Some? && n.parent.value.name.Some? && StartsWith(n.parent.value.name.value, "Row")
  }

  /** The walk from one hit towards the root, stopping at the first row key. */
  function Climb(n: Node): (r: Option<Node>)
    ensures r.Some? ==> IsRowKey(r.value)
  {
    if IsRowKey(n) then Some(n)
    else if n.parent.None? then None
    else Climb(n.parent.value)
  }

  /** The node, its parent, its grandparent, … up to the root. */
  function Ancestry(n: Node): (chain: seq<Node>)
    ensures |chain| >= 1 && chain[0] == n
  {
    if n.parent.None? then [n] else [n] + Ancestry(n.parent.value)
  }

  /** The index of the first row key in a chain, or the chain's length when it holds none. */
  function FirstRowKeyIndex(chain: seq<Node>): (k: nat)
    ensures k <= |chain|
    ensures forall j :: 0 <= j < k ==> !IsRowKey(chain[j])
    ensures k < |chain| ==> IsRowKey(chain[k])
  {
    if |chain| == 0 then 0
    else if IsRowKey(chain[0]) then 0
    else 1 + FirstRowKeyIndex(chain[1..])
  }

  /** The walk finds the first row key on the self-to-root chain, and finds nothing exactly when the chain has none. */
  lemma {:induction false} ClimbFindsFirstRowKey(n: Node)
    ensures var chain := Ancestry(n);
            var k := FirstRowKeyIndex(chain);
            Climb(n) == if k < |chain| then Some(chain[k]) else None
  {
    if !IsRowKey(n) && n.parent.Some? {
      ClimbFindsFirstRowKey(n.parent.value);
      assert Ancestry(n)[1..] == Ancestry(n.parent.value);
    }
  }

  /** The first hit whose walk finds a row key decides the result. */
  function FirstKey(hits: seq<Node>): (r: Option<Node>)
    ensures r.Some? ==> IsRowKey(r.value)
  {
    if |hits| == 0 then None
    else if Climb(hits[0]).Some? then Climb(hits[0])
    else FirstKey(hits[1..])
  }

  /** The result comes from the first hit whose walk succeeds, and is none exactly when no walk succeeds. */
  lemma {:induction false} FirstKeyIsFirstSuccess(hits: seq<Node>)
    ensures FirstKey(hits).None? <==> forall i :: 0 <= i < |hits| ==> Climb(hits[i]).None?
    ensures FirstKey(hits).Some? ==>
              exists i :: 0 <= i < |hits| && FirstKey(hits) == Climb(hits[i])
                && forall j :: 0 <= j < i ==> Climb(hits[j]).None?
  {
    if |hits| > 0 && Climb(hits[0]).None? {
      FirstKeyIsFirstSuccess(hits[1..]);
      if FirstKey(hits).Some? {
        var i :| 0 <= i < |hits[1..]| && FirstKey(hits[1..]) == Climb(hits[1..][i])
                 && forall j :: 0 <= j < i ==> Climb(hits[1..][j]).None?;
        assert FirstKey(hits) == Climb(hits[i + 1]);
        assert forall j :: 0 <= j < i + 1 ==> Climb(hits[j]).None? by {
          forall j | 0 <= j < i + 1
            ensures Climb(hits[j]).None?
          {
            if j > 0 {
              assert hits[j] == hits[1..][j - 1];
            }
          }
        }
      }
      if forall i :: 0 <= i < |hits[1..]| ==> Climb(hits[1..][i]).None? {
        forall i | 0 <= i < |hits|
          ensures Climb(hits[i]).None?
        {
          if i > 0 {
            assert hits[i] == hits[1..][i - 1];
          }
        }
      }
    }
  }

  /** The walk inside `findKey`: the hits in ray order, each climbed towards the root. */
  method FindKey(hits: seq<Node>) returns (intersect: Option<Node>)
    ensures intersect == FirstKey(hits)
  {
    intersect := None;
    var i := 0;
    while i < |hits|
      invariant 0 <= i <= |hits|
      invariant intersect.None? && FirstKey(hits) == FirstKey(hits[i..])
    {
      var current: Option<Node> := Some(hits[i]);
      while current.Some?
        invariant intersect.None?
        invariant current.Some? ==> Climb(hits[i]) == Climb(current.value)
        invariant current.None? ==> Climb(hits[i]).None?
        decreases current
      {
        var node := current.value;
        if IsRowKey(node) {
          intersect := current;
          break;
        }
        current := node.parent;
      }
      assert hits[i..][1..] == hits[i + 1..];
      if intersect.Some? {
        break;
      }
      i := i + 1;
    }
  }

  // ---------------------------------------------------------------------------
  // the keyboard object

  /**
   * The keyboard: the code-to-mesh map, the meshes with computed positions,
   * the meshes currently at their down position, the pressing set, the
   * pointer-up releases still registered, the input listeners, the
   * characters handed to them, and how often a render was asked for.
   */
  class Keyboard {
    var keyObjects: map<string, Node>
    var prepared: set<Node>
    var down: set<Node>
    var pressing: set<Node>
    var pendingReleases: seq<Node>
    var listeners: set<nat>
    var delivered: seq<string>
    var renderRequests: nat

    /** Stored meshes are prepared under their own code; only prepared meshes move, and only prepared meshes have a release pending. */
    ghost predicate Valid()
      reads this
    {
      && Registered(keyObjects, prepared)
      && down <= prepared
      && forall k | k in pendingReleases :: k in prepared
    }

    constructor ()
      ensures Valid()
      ensures keyObjects == map[] && prepared == {} && down == {} && pressing == {}
      ensures pendingReleases == [] && listeners == {} && delivered == [] && renderRequests == 0
    {
      keyObjects := map[];
      prepared := {};
      down := {};
      pressing := {};
      pendingReleases := [];
      listeners := {};
      delivered := [];
      renderRequests := 0;
    }

    /** `getKeyObjByKey(code)`. */
    function KeyObject(code: string): (r: Option<Node>)
      requires Valid()
      reads this
      ensures r.Some? <==> code in keyObjects
      ensures r.Some? ==> r.value == keyObjects[code]
      ensures r.Some? ==> r.value in prepared && NodeCode(r.value) == Some(code)
    {
      if code in keyObjects then Some(keyObjects[code]) else None
    }

    /**
     * The model-load callback: every key of every row of "Keys" is registered
     * in order, then a render is asked for. A key without a name throws, which
     * ends the callback with the keys before it registered and no render.
     */
    method SetupModel(rows: seq<seq<Node>>)
      requires Valid()
      modifies this
      ensures Valid()
      ensures var r := RegisterAll(Registry(old(keyObjects), old(prepared), false), Flatten(rows));
              && keyObjects == r.keyObjects && prepared == r.prepared
              && renderRequests == old(renderRequests) + (if r.failed then 0 else 1)
      ensures down == old(down) && pressing == old(pressing) && pendingReleases == old(pendingReleases)
      ensures listeners == old(listeners) && delivered == old(delivered)
    {
      ghost var start := Registry(keyObjects, prepared, false);
      var i := 0;
      while i < |rows|
        invariant 0 <= i <= |rows|
        invariant Registry(keyObjects, prepared, false) == RegisterAll(start, Flatten(rows[..i]))
        invariant down == old(down) && pressing == old(pressing) && pendingReleases == old(pendingReleases)
        invariant listeners == old(listeners) && delivered == old(delivered)
        invariant renderRequests == old(renderRequests)
      {
        var aborted := RegisterRow(rows[i], start, Flatten(rows[..i]));
        FlattenAppend(rows, i);
        if aborted {
          FlattenConcat(rows, i + 1);
          AbortStays(start, Flatten(rows[..i + 1]), Flatten(rows[i + 1..]));
          RegisterAllKeepsRegistered(start, Flatten(rows));
          return;
        }
        i := i + 1;
      }
      assert rows[..i] == rows;
      RegisterAllKeepsRegistered(start, Flatten(rows));
      renderRequests := renderRequests + 1;
    }

    /** One row's `forEach`: its keys in order; a nameless key throws and ends the whole callback. */
    method RegisterRow(row: seq<Node>, ghost start: Registry, ghost done: seq<Node>) returns (aborted: bool)
      requires Registry(keyObjects, prepared, false) == RegisterAll(start, done)
      modifies this
      ensures Registry(keyObjects, prepared, aborted) == RegisterAll(start, done + row)
      ensures down == old(down) && pressing == old(pressing) && pendingReleases == old(pendingReleases)
      ensures listeners == old(listeners) && delivered == old(delivered) && renderRequests == old(renderRequests)
    {
      var j := 0;
      assert done + row[..0] == done;
      while j < |row|
        invariant 0 <= j <= |row|
        invariant Registry(keyObjects, prepared, false) == RegisterAll(start, done + row[..j])
        invariant down == old(down) && pressing == old(pressing) && pendingReleases == old(pendingReleases)
        invariant listeners == old(listeners) && delivered == old(delivered) && renderRequests == old(renderRequests)
      {
        var key := row[j];
        assert done + row[..j + 1] == (done + row[..j]) + [key];
        if key.name.None? {
          assert done + row == (done + row[..j + 1]) + row[j + 1..];
          AbortStays(start, done + row[..j + 1], row[j + 1..]);
          return true;
        }
        var code := KeySuffix(key.name.value);
        if code.Some? {
          keyObjects := keyObjects[code.value := key];
          prepared := prepared + {key};
        }
        j := j + 1;
      }
      assert row[..j] == row;
      return false;
    }

    /** `pressKey` with a mesh: move it to its down position and render; a mesh without computed positions throws. */
    method PressObject(key: Node) returns (ok: bool)
      requires Valid()
      modifies this
      ensures Valid()
      ensures ok == (key in old(prepared))
      ensures down == if ok then old(down) + {key} else old(down)
      ensures renderRequests == old(renderRequests) + (if ok then 1 else 0)
      ensures keyObjects == old(keyObjects) && prepared == old(prepared) && pressing == old(pressing)
      ensures pendingReleases == old(pendingReleases) && listeners == old(listeners) && delivered == old(delivered)
    {
      if key !in prepared {
        return false;
      }
      down := down + {key};
      renderRequests := renderRequests + 1;
      return true;
    }

    /** `releaseKey` with a mesh: move it to its up position and render; a mesh without computed positions throws. */
    method ReleaseObject(key: Node) returns (ok: bool)
      requires Valid()
      modifies this
      ensures Valid()
      ensures ok == (key in old(prepared))
      ensures down == if ok then old(down) - {key} else old(down)
      ensures renderRequests == old(renderRequests) + (if ok then 1 else 0)
      ensures keyObjects == old(keyObjects) && prepared == old(prepared) && pressing == old(pressing)
      ensures pendingReleases == old(pendingReleases) && listeners == old(listeners) && delivered == old(delivered)
    {
      if key !in prepared {
        return false;
      }
      down := down - {key};
      renderRequests := renderRequests + 1;
      return true;
    }

    /** `pressKey(code)`, the keydown handler: an unknown code changes nothing and asks for no render. */
    method PressKey(code: string)
      requires Valid()
      modifies this
      ensures Valid()
      ensures code !in keyObjects ==> down == old(down) && renderRequests == old(renderRequests)
      ensures code in keyObjects ==> down == old(down) + {keyObjects[code]} && renderRequests == old(renderRequests) + 1
      ensures keyObjects == old(keyObjects) && prepared == old(prepared) && pressing == old(pressing)
      ensures pendingReleases == old(pendingReleases) && listeners == old(listeners) && delivered == old(delivered)
    {
      var key := KeyObject(code);
      if key.None? {
        return;
      }
      var _ := PressObject(key.value);
    }

    /** `releaseKey(code)`, the keyup handler: an unknown code changes nothing and asks for no render. */
    method ReleaseKey(code: string)
      requires Valid()
      modifies this
      ensures Valid()
      ensures code !in keyObjects ==> down == old(down) && renderRequests == old(renderRequests)
      ensures code in keyObjects ==> down == old(down) - {keyObjects[code]} && renderRequests == old(renderRequests) + 1
      ensures keyObjects == old(keyObjects) && prepared == old(prepared) && pressing == old(pressing)
      ensures pendingReleases == old(pendingReleases) && listeners == old(listeners) && delivered == old(delivered)
    {
      var key := KeyObject(code);
      if key.None? {
        return;
      }
      var _ := ReleaseObject(key.value);
    }

    /** `onInput(callback)`: listeners form a set. */
    method OnInput(listener: nat)
      requires Valid()
      modifies this
      ensures Valid()
      ensures listeners == old(listeners) + {listener}
      ensures keyObjects == old(keyObjects) && prepared == old(prepared) && down == old(down) && pressing == old(pressing)
      ensures pendingReleases == old(pendingReleases) && delivered == old(delivered) && renderRequests == old(renderRequests)
    {
      listeners := listeners + {listener};
    }

    /**
     * The pointerdown handler over the hits of the picking ray. A found key
     * joins the pressing set and is pressed; if that throws (no computed
     * positions) or its name is missing, the handler ends there. Otherwise a
     * non-empty character goes to every listener, and a release for the key is
     * registered for the next pointer-up.
     */
    method PointerDown(hits: seq<Node>)
      requires Valid()
      modifies this
      ensures Valid()
      ensures FirstKey(hits).None? ==>
                down == old(down) && pressing == old(pressing) && pendingReleases == old(pendingReleases)
                && delivered == old(delivered) && renderRequests == old(renderRequests)
      ensures FirstKey(hits).Some? ==>
                var key := FirstKey(hits).value;
                var ok := key in old(prepared) && key.name.Some?;
                var ch := if key.name.Some? then ToKeyCharacter(key.name.value) else None;
                && pressing == old(pressing) + {key}
                && down == (if key in old(prepared) then old(down) + {key} else old(down))
                && renderRequests == old(renderRequests) + (if key in old(prepared) then 1 else 0)
                && pendingReleases == old(pendingReleases) + (if ok then [key] else [])
                && delivered == old(delivered) + (if ok && ch.Some? && ch.value != "" && listeners != {} then [ch.value] else [])
      ensures keyObjects == old(keyObjects) && prepared == old(prepared) && listeners == old(listeners)
    {
      var found := FindKey(hits);
      if found.None? {
        return;
      }
      var key := found.value;
      pressing := pressing + {key};
      var pressed := PressObject(key);
      if !pressed || key.name.None? {
        return;
      }
      var ch := ToKeyCharacter(key.name.value);
      if ch.Some? && ch.value != "" && listeners != {} {
        delivered := delivered + [ch.value];
      }
      pendingReleases := pendingReleases + [key];
    }

    /**
     * Pointer-up: every registered release runs once, in order: it unregisters
     * itself, takes its key out of the pressing set and releases it.
     */
    method PointerUp()
      requires Valid()
      modifies this
      ensures Valid()
      ensures pressing == old(pressing) - set k | k in old(pendingReleases)
      ensures down == old(down) - set k | k in old(pendingReleases)
      ensures renderRequests == old(renderRequests) + |old(pendingReleases)|
      ensures pendingReleases == []
      ensures keyObjects == old(keyObjects) && prepared == old(prepared) && listeners == old(listeners) && delivered == old(delivered)
    {
      var pending := pendingReleases;
      var i := 0;
      while i < |pending|
        invariant 0 <= i <= |pending|
        invariant Valid() && pendingReleases == pending[i..]
        invariant pressing == old(pressing) - set k | k in pending[..i]
        invariant down == old(down) - set k | k in pending[..i]
        invariant renderRequests == old(renderRequests) + i
        invariant keyObjects == old(keyObjects) && prepared == old(prepared)
        invariant listeners == old(listeners) && delivered == old(delivered)
      {
        var key := pending[i];
        assert pending[..i + 1] == pending[..i] + [key];
        pendingReleases := pending[i + 1..];
        pressing := pressing - {key};
        var _ := ReleaseObject(key);
        i := i + 1;
      }
      assert pending[..i] == pending;
    }
  }

  /** Once a load has aborted, later keys change nothing. */
  lemma AbortStays(start: Registry, prefix: seq<Node>, rest: seq<Node>)
    requires RegisterAll(start, prefix).failed
    ensures RegisterAll(start, prefix + rest) == RegisterAll(start, prefix)
  {
    RegisterAllAppend(start, prefix, rest);
    FailedStays(RegisterAll(start, prefix), rest);
  }

  lemma {:induction false} FlattenConcat(rows: seq<seq<Node>>, k: nat)
    requires k <= |rows|
    ensures Flatten(rows) == Flatten(rows[..k]) + Flatten(rows[k..])
    decreases |rows|
  {
    if k == |rows| {
      assert rows[..k] == rows && rows[k..] == [];
    } else {
      var init := rows[..|rows| - 1];
      FlattenConcat(init, k);
      assert init[..k] == rows[..k];
      var tail := rows[k..];
      assert tail[..|tail| - 1] == init[k..];
    }
  }
}
