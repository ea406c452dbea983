/** Section as an ordered dictionary: a dictionary with two lists of keys and two tables of comments
    that must know the same keys. Values are read back without interpolation. */
module SectionKeys {
  import opened Lists
  import opened Wrappers

  /** What can be assigned to a key: a Section, a plain dictionary, a string, a list with or without
      strings only, or anything else. */
  datatype Value = Subsection(id: nat) | Dict(entries: seq<(string, string)>) | Text(text: string)
      | Texts(texts: seq<string>)
                 | Mixed | Other

  datatype Error = KeyError | TypeError

  /** Scalars then sections list the keys exactly once each, and both comment tables have these keys. */
  ghost predicate Agree(keys: set<string>, scalars: seq<string>, sections: seq<string>, comments: set<string>,
                        inline: set<string>) {
    && NoRepeats(scalars + sections)
    && (forall k :: k in keys <==> k in scalars + sections)
    && comments == keys && inline == keys
  }

  lemma TablesAgree(keys: set<string>, scalars: seq<string>, sections: seq<string>, comments: set<string>,
                    inline: set<string>)
    requires Agree(keys, scalars, sections, comments, inline)
    ensures comments == keys && inline == keys
  {
  }

  lemma WithoutConcat(a: seq<string>, b: seq<string>, key: string)
    ensures Without(a + b, key) == if key in a then Without(a, key) + b else a + Without(b, key)
  {
    hide RemoveAt, IndexOf;
    if key in a || key in b {
      IndexInConcat(a, b, key);
      RemoveInConcat(a, b, IndexOf(a + b, key));
    }
  }

  lemma AgreeWithout(keys: set<string>, scalars: seq<string>, sections: seq<string>, s: seq<string>, t: seq<string>,
                     key: string)
    requires Agree(keys, scalars, sections, keys, keys) && key in keys
    requires s + t == Without(scalars + sections, key)
    ensures Agree(keys - {key}, s, t, keys - {key}, keys - {key})
  {
    RemoveMembers(scalars + sections, IndexOf(scalars + sections, key));
  }

  lemma AgreeWith(keys: set<string>, scalars: seq<string>, sections: seq<string>, s: seq<string>, t: seq<string>,
                  k: nat, key: string)
    requires Agree(keys, scalars, sections, keys, keys) && key !in keys
    requires k <= |scalars + sections| && s + t == InsertAt(scalars + sections, k, key)
    ensures Agree(keys + {key}, s, t, keys + {key}, keys + {key})
  {
    InsertMembers(scalars + sections, k, key);
  }

  /** The keys with one replaced. */
  lemma Replaced(list: seq<string>, k: nat, key: string)
    requires NoRepeats(list) && k < |list|
    ensures forall x :: x in list[k := key] <==> x == key || (x in list && x != list[k])
    ensures NoRepeats(list[k := key]) <==> key == list[k] || key !in list
  {
    var r := list[k := key];
    assert r[k] == key;
    forall x | x in list && x != list[k] ensures x in r {
      var i :| 0 <= i < |list| && list[i] == x;
      assert r[i] == x;
    }
    if key in list && key != list[k] {
      var i :| 0 <= i < |list| && list[i] == key;
      assert r[i] == r[k];
    }
  }

  class Section {
    var values: map<string, Value>
    var scalars: seq<string>
    var sections: seq<string>
    var comments: map<string, seq<string>>
    var inlineComments: map<string, string>
    var defaults: seq<string>
    /** The `stringify` option of the configuration: whether any value is acceptable. */
    const stringify: bool

    ghost predicate Valid()
      reads this
    {
      Agree(values.Keys, scalars, sections, comments.Keys, inlineComments.Keys)
    }

    constructor (stringify: bool)
      ensures Valid() && values == map[] && defaults == [] && this.stringify == stringify
    {
      this.stringify := stringify;
      values, scalars, sections := map[], [], [];
      comments, inlineComments, defaults := map[], map[], [];
    }

    predicate IsText(value: Value) {
      value.Text? || value.Texts?
    }

    /** Sets an item. A new key goes to the end of its list. A refused value of a new key leaves the key in
        the lists and comment tables but not in the dictionary. */
    method SetItem(key: string, value: Value) returns (error: Option<Error>)
      requires Valid()
      modifies this
      ensures error == if value.Subsection? || value.Dict? || stringify || IsText(value) then None else Some(TypeError)
      ensures Valid() <==> error == None || key in old(values)
      ensures values == if error == None then old(values)[key := value] else old(values)
      ensures defaults == Without(old(defaults), key)
      ensures if key in old(values) then scalars == old(scalars) && sections == old(sections)
        else if value.Subsection? || value.Dict? then scalars == old(scalars) && sections == old(sections) + [key]
        else scalars == old(scalars) + [key] && sections == old(sections)
      ensures comments == if key in old(comments) then old(comments) else old(comments)[key := []]
      ensures inlineComments == if key in old(comments) then old(inlineComments) else old(inlineComments)[key := ""]
    {
      assert key !in defaults ==> Without(defaults, key) == defaults;
      hide Agree, NoRepeats, Without, IndexOf;
      ghost var keys := values.Keys;
      TablesAgree(keys, scalars, sections, comments.Keys, inlineComments.Keys);
      SetAgrees(keys, scalars, sections, key);
      UpdatedKeys(values, key, value);
      AddComments(key);
      if key in defaults {
        defaults := Without(defaults, key);
      }
      if value.Subsection? || value.Dict? {
        if key !in values {
          sections := sections + [key];
        }
        values := values[key := value];
      } else {
        if key !in values {
          scalars := scalars + [key];
        }
        if !stringify && !IsText(value) {
          if key !in values { CommentsDisagree(keys, scalars, sections, key); }
          return Some(TypeError);
        }
        values := values[key := value];
      }
      return None;
    }

    /** A new key gets an empty comment of both kinds. */
    method AddComments(key: string)
      requires comments.Keys == inlineComments.Keys
      modifies this`comments, this`inlineComments
      ensures comments == if key in old(comments) then old(comments) else old(comments)[key := []]
      ensures inlineComments == if key in old(comments) then old(inlineComments) else old(inlineComments)[key := ""]
      ensures comments.Keys == old(comments.Keys) + {key} && inlineComments.Keys == comments.Keys
    {
      if key !in comments {
        comments := comments[key := []];
        inlineComments := inlineComments[key := ""];
      }
    }

    method DelItem(key: string) returns (error: Option<Error>)
      requires Valid()
      modifies this
      ensures Valid()
      ensures error == if key in old(values) then None else Some(KeyError)
      ensures values == old(values) - {key} && scalars + sections == Without(old(scalars + sections), key)
      ensures scalars == Without(old(scalars), key) && sections == Without(old(sections), key)
      ensures defaults == old(defaults)
      ensures comments == old(comments) - {key} && inlineComments == old(inlineComments) - {key}
    {
      hide Agree, NoRepeats, Without, IndexOf;
      TablesAgree(values.Keys, scalars, sections, comments.Keys, inlineComments.Keys);
      DeleteAgrees(values.Keys, scalars, sections, key);
      if key !in values {
        assert values - {key} == values && comments - {key} == comments && inlineComments - {key} == inlineComments;
        return Some(KeyError);
      }
      values := values - {key};
      if key in scalars {
        scalars := Without(scalars, key);
      } else {
        sections := Without(sections, key);
      }
      comments := comments - {key};
      inlineComments := inlineComments - {key};
      return None;
    }

    /** Removes a key and gives its value, or the default for a missing key. */
    method Pop(key: string, default: Option<Value>) returns (r: Result<Value, Error>)
      requires Valid()
      modifies this
      ensures Valid()
      ensures r == if key in old(values) then Ok(old(values)[key]) else if default.Some? then Ok(default.value)
          else Fail(KeyError)
      ensures values == old(values) - {key} && scalars + sections == Without(old(scalars + sections), key)
      ensures scalars == Without(old(scalars), key) && sections == Without(old(sections), key)
      ensures defaults == old(defaults)
      ensures comments == old(comments) - {key} && inlineComments == old(inlineComments) - {key}
    {
      hide Agree, NoRepeats, Without, IndexOf;
      TablesAgree(values.Keys, scalars, sections, comments.Keys, inlineComments.Keys);
      DeleteAgrees(values.Keys, scalars, sections, key);
      if key !in values {
        r := if default.None? then Fail(KeyError) else Ok(default.value);
      } else {
        r := Ok(values[key]);
        values := values - {key};
      }
      if key in scalars {
        comments := comments - {key};
        inlineComments := inlineComments - {key};
        scalars := Without(scalars, key);
      } else if key in sections {
        comments := comments - {key};
        inlineComments := inlineComments - {key};
        sections := Without(sections, key);
      } else {
        assert values - {key} == values && comments - {key} == comments && inlineComments - {key} == inlineComments;
      }
    }

    /** Removes the first key in order, scalars before sections. */
    method PopItem() returns (r: Result<(string, Value), Error>)
      requires Valid()
      modifies this
      ensures Valid()
      ensures var sequence := old(scalars + sections);
        if sequence == [] then r == Fail(KeyError) && values == old(values) && scalars + sections == []
        else (sequence[0] in old(values) && r == Ok((sequence[0], old(values)[sequence[0]]))
              && values == old(values) - {sequence[0]} && scalars + sections == sequence[1..]
              && scalars == Without(old(scalars), sequence[0]) && sections == Without(old(sections), sequence[0])
              && comments == old(comments) - {sequence[0]} && inlineComments == old(inlineComments) - {sequence[0]})
      ensures old(scalars + sections) == [] ==>
        scalars == [] && sections == [] && comments == old(comments) && inlineComments == old(inlineComments)
      ensures defaults == old(defaults)
    {
      var sequence := scalars + sections;
      if sequence == [] {
        return Fail(KeyError);
      }
      var key := sequence[0];
      FirstKey(values.Keys, scalars, sections);
      hide Agree, Without, IndexOf, NoRepeats;
      var val := values[key];
      var error := DelItem(key);
      return Ok((key, val));
    }

    /** Empties the section. Which keys have defaults is kept. */
    method Clear()
      modifies this
      ensures Valid() && values == map[] && scalars == [] && sections == [] && defaults == old(defaults)
      ensures comments == map[] && inlineComments == map[]
    {
      values := map[];
      scalars := [];
      sections := [];
      comments := map[];
      inlineComments := map[];
    }

    /** Renames a key in its place. The lists stay in order exactly when the new name was not another key. */
    method Rename(oldkey: string, newkey: string) returns (error: Option<Error>)
      requires Valid()
      modifies this
      ensures error == if oldkey in old(values) then None else Some(KeyError)
      ensures Valid() <==> error != None || newkey == oldkey || newkey !in old(values)
      ensures error != None ==>
        values == old(values) && scalars == old(scalars) && sections == old(sections) && comments == old(comments)
        && inlineComments == old(inlineComments)
      ensures defaults == old(defaults)
      ensures error == None ==>
        (values == (old(values) - {oldkey})[newkey := old(values)[oldkey]]
         && comments == (old(comments) - {oldkey})[newkey := old(comments)[oldkey]]
         && inlineComments == (old(inlineComments) - {oldkey})[newkey := old(inlineComments)[oldkey]]
         && oldkey in old(scalars + sections)
         && scalars + sections == old(scalars + sections)[IndexOf(old(scalars + sections), oldkey) := newkey]
         && |scalars| == |old(scalars)|)
    {
      hide Agree, NoRepeats, IndexOf, RenamedIn;
      ghost var s, t := scalars, sections;
      TablesAgree(values.Keys, s, t, comments.Keys, inlineComments.Keys);
      KeyIsListed(values.Keys, s, t, oldkey);
      if oldkey !in scalars && oldkey !in sections {
        return Some(KeyError);
      }
      RenamedKeys(values, oldkey, newkey, values[oldkey]);
      var val := values[oldkey];
      values := values - {oldkey};
      values := values[newkey := val];
      RenameInLists(oldkey, newkey);
      AgreeReplaced(old(values.Keys), s, t, scalars, sections, IndexOf(s + t, oldkey), newkey);
      RenameComments(oldkey, newkey);
      return None;
    }

    method RenameComments(oldkey: string, newkey: string)
      requires oldkey in comments && oldkey in inlineComments
      modifies this`comments, this`inlineComments
      ensures comments == (old(comments) - {oldkey})[newkey := old(comments)[oldkey]]
      ensures inlineComments == (old(inlineComments) - {oldkey})[newkey := old(inlineComments)[oldkey]]
      ensures comments.Keys == old(comments.Keys) - {oldkey} + {newkey}
      ensures inlineComments.Keys == old(inlineComments.Keys) - {oldkey} + {newkey}
    {
      RenamedKeys(comments, oldkey, newkey, comments[oldkey]);
      RenamedKeys(inlineComments, oldkey, newkey, inlineComments[oldkey]);
      var comm, inlineComment := comments[oldkey], inlineComments[oldkey];
      comments := comments - {oldkey};
      inlineComments := inlineComments - {oldkey};
      comments := comments[newkey := comm];
      inlineComments := inlineComments[newkey := inlineComment];
    }

    method RenameInLists(oldkey: string, newkey: string)
      requires oldkey in scalars || oldkey in sections
      modifies this`scalars, this`sections
      ensures oldkey in old(scalars + sections)
      ensures scalars + sections == old(scalars + sections)[IndexOf(old(scalars + sections), oldkey) := newkey]
      ensures |scalars| == |old(scalars)|
    {
      RenamedLists(scalars, sections, oldkey, newkey);
      hide IndexOf, RemoveAt, InsertAt;
      var inScalars := oldkey in scalars;
      var theList := if inScalars then scalars else sections;
      var pos := IndexOf(theList, oldkey);
      theList := Without(theList, oldkey);
      theList := InsertAt(theList, pos, newkey);
      if inScalars {
        scalars := theList;
      } else {
        sections := theList;
      }
    }
  }

  lemma UpdatedKeys<T>(m: map<string, T>, key: string, x: T)
    ensures m[key := x].Keys == m.Keys + {key}
  {
  }

  lemma CommentsDisagree(keys: set<string>, scalars: seq<string>, sections: seq<string>, key: string)
    requires key !in keys
    ensures !Agree(keys, scalars, sections, keys + {key}, keys + {key})
  {
    assert key in keys + {key};
  }

  lemma SetAgrees(keys: set<string>, scalars: seq<string>, sections: seq<string>, key: string)
    requires Agree(keys, scalars, sections, keys, keys)
    ensures key in keys ==> keys + {key} == keys
    ensures key !in keys ==> Agree(keys + {key}, scalars + [key], sections, keys + {key}, keys + {key})
    ensures key !in keys ==> Agree(keys + {key}, scalars, sections + [key], keys + {key}, keys + {key})
  {
    if key !in keys {
      var all := scalars + sections;
      assert scalars + [key] + sections == InsertAt(all, |scalars|, key);
      AgreeWith(keys, scalars, sections, scalars + [key], sections, |scalars|, key);
      assert scalars + (sections + [key]) == InsertAt(all, |all|, key);
      AgreeWith(keys, scalars, sections, scalars, sections + [key], |all|, key);
    }
  }

  lemma ListedOnce(scalars: seq<string>, sections: seq<string>, key: string)
    requires NoRepeats(scalars + sections) && key in scalars
    ensures key !in sections
  {
    var all := scalars + sections;
    var i :| 0 <= i < |scalars| && scalars[i] == key;
    forall j | 0 <= j < |sections|
      ensures sections[j] != key
    {
      assert all[i] == scalars[i] && all[|scalars| + j] == sections[j];
    }
  }

  lemma DeleteAgrees(keys: set<string>, scalars: seq<string>, sections: seq<string>, key: string)
    requires Agree(keys, scalars, sections, keys, keys)
    ensures key !in keys ==>
              Without(scalars + sections, key) == scalars + sections && key !in scalars && key !in sections
    ensures key !in scalars ==> Without(scalars, key) == scalars
    ensures key in scalars || key !in sections ==> Without(sections, key) == sections
    ensures key in keys ==> key in scalars || key in sections
    ensures key in scalars ==> Without(scalars + sections, key) == Without(scalars, key) + sections
    ensures key in keys && key !in scalars ==> Without(scalars + sections, key) == scalars + Without(sections, key)
    ensures key in scalars ==> Agree(keys - {key}, Without(scalars, key), sections, keys - {key}, keys - {key})
    ensures key in keys && key !in scalars ==>
              Agree(keys - {key}, scalars, Without(sections, key), keys - {key}, keys - {key})
  {
    assert key in scalars + sections <==> key in scalars || key in sections;
    WithoutConcat(scalars, sections, key);
    if key in scalars { ListedOnce(scalars, sections, key); }
    if key in scalars {
      AgreeWithout(keys, scalars, sections, Without(scalars, key), sections, key);
    } else if key in keys {
      AgreeWithout(keys, scalars, sections, scalars, Without(sections, key), key);
    }
  }

  lemma FirstKey(keys: set<string>, scalars: seq<string>, sections: seq<string>)
    requires Agree(keys, scalars, sections, keys, keys) && scalars + sections != []
    ensures (scalars + sections)[0] in keys
    ensures Without(scalars + sections, (scalars + sections)[0]) == (scalars + sections)[1..]
  {
  }

  /** A list with one key renamed in its place, as the source does it. */
  function RenamedIn(list: seq<string>, oldkey: string, newkey: string): (r: seq<string>)
    requires oldkey in list
    ensures |r| == |list|
  {
    InsertAt(Without(list, oldkey), IndexOf(list, oldkey), newkey)
  }

  lemma RenamedInPlace(list: seq<string>, oldkey: string, newkey: string)
    requires oldkey in list
    ensures RenamedIn(list, oldkey, newkey) == list[IndexOf(list, oldkey) := newkey]
  {
    RemoveThenInsert(list, IndexOf(list, oldkey), newkey);
    hide RemoveAt, InsertAt, IndexOf;
  }

  /** Replacing a key in its list. */
  lemma AgreeReplaced(keys: set<string>, scalars: seq<string>, sections: seq<string>, s: seq<string>, t: seq<string>,
                      k: nat,
                      newkey: string)
    requires Agree(keys, scalars, sections, keys, keys) && k < |scalars + sections|
    requires s + t == (scalars + sections)[k := newkey]
    ensures var oldkey := (scalars + sections)[k];
      var renamed := keys - {oldkey} + {newkey};
      Agree(renamed, s, t, renamed, renamed) <==> newkey == oldkey || newkey !in keys
  {
    var all := scalars + sections;
    Replaced(all, k, newkey);
    hide NoRepeats;
    assert all[k] in keys && (newkey in all <==> newkey in keys);
    forall x ensures x in keys - {all[k]} + {newkey} <==> x in s + t {
      assert x in keys <==> x in all;
    }
  }

  lemma KeyIsListed(keys: set<string>, scalars: seq<string>, sections: seq<string>, key: string)
    requires Agree(keys, scalars, sections, keys, keys)
    ensures key in keys <==> key in scalars || key in sections
  {
    assert key in scalars + sections <==> key in scalars || key in sections;
  }

  lemma RenamedLists(scalars: seq<string>, sections: seq<string>, oldkey: string, newkey: string)
    requires oldkey in scalars || oldkey in sections
    ensures oldkey in scalars + sections
    ensures (if oldkey in scalars then RenamedIn(scalars, oldkey, newkey) + sections
             else scalars + RenamedIn(sections, oldkey, newkey)) ==
      (scalars + sections)[IndexOf(scalars + sections, oldkey) := newkey]
  {
    hide IndexOf, RenamedIn;
    IndexInConcat(scalars, sections, oldkey);
    if oldkey in scalars {
      RenamedInPlace(scalars, oldkey, newkey);
      UpdateInConcat(scalars, sections, IndexOf(scalars, oldkey), newkey);
    } else {
      RenamedInPlace(sections, oldkey, newkey);
      UpdateInConcat(scalars, sections, |scalars| + IndexOf(sections, oldkey), newkey);
    }
  }

  lemma RenamedKeys<T>(m: map<string, T>, oldkey: string, newkey: string, x: T)
    ensures (m - {oldkey})[newkey := x].Keys == m.Keys - {oldkey} + {newkey}
  {
  }

  lemma UpdateInConcat(a: seq<string>, b: seq<string>, k: nat, x: string)
    requires k < |a| + |b|
    ensures k < |a| ==> (a + b)[k := x] == a[k := x] + b
    ensures k >= |a| ==> (a + b)[k := x] == a + b[k - |a| := x]
  {
  }
}
