/**
 * The subscriber store: `users.txt` held as its raw lines, with
 * `read_user_ids`, `save_user_id`, `remove_user_id` and the user count.
 * `Saved` and `Removed` say what each mutating operation does to the lines;
 * the methods of `SubscriberStore` are proved to do exactly that, and the
 * lemmas below prove what the store promises about them.
 */
module SubscriberRegistry {
  import opened PyStr
  import opened LineFile

  predicate NoDuplicates(s: seq<string>) {
    forall i, j :: 0 <= i < j < |s| ==> s[i] != s[j]
  }

  /** Python's `list.remove(x)`: drop the first occurrence of `x`. */
  function RemoveFirst(s: seq<string>, x: string): (r: seq<string>)
    ensures x !in s ==> r == s
    ensures x in s ==> |r| == |s| - 1
    ensures forall y :: y in r ==> y in s
  {
    if s == [] then []
    else
      assert s == [s[0]] + s[1..];
      if s[0] == x then s[1..]
      else [s[0]] + RemoveFirst(s[1..], x)
  }

  /** `list.remove` keeps every element before the first `x` and every one
      after it, in order. */
  lemma {:induction false} RemoveFirstSplit(s: seq<string>, x: string, i: nat)
    requires i < |s| && s[i] == x && x !in s[..i]
    ensures RemoveFirst(s, x) == s[..i] + s[i + 1..]
  {
    if i > 0 {
      assert s[1..][..i - 1] == s[1..i];
      RemoveFirstSplit(s[1..], x, i - 1);
    }
  }

  /** In a duplicate-free list, removing `x` removes it altogether and
      keeps the rest duplicate-free. */
  lemma RemoveFirstNoDuplicates(s: seq<string>, x: string)
    requires NoDuplicates(s)
    ensures NoDuplicates(RemoveFirst(s, x)) && x !in RemoveFirst(s, x)
  {
    if x in s {
      var i :| 0 <= i < |s| && s[i] == x;
      assert forall k :: 0 <= k < i ==> s[..i][k] == s[k];
      RemoveFirstSplit(s, x, i);
      DropNoDuplicates(s, i);
    }
  }

  /** Deleting one element of a duplicate-free list leaves it duplicate-free
      and without that element. */
  lemma DropNoDuplicates(s: seq<string>, i: nat)
    requires i < |s| && NoDuplicates(s)
    ensures NoDuplicates(s[..i] + s[i + 1..]) && s[i] !in s[..i] + s[i + 1..]
  {
    var r := s[..i] + s[i + 1..];
    assert forall a :: 0 <= a < i ==> r[a] == s[a];
    assert forall a :: i <= a < |r| ==> r[a] == s[a + 1];
  }

  /** The lines after `save_user_id(userId)`: unchanged when the id is
      already read back from the file, otherwise `userId + "\n"` appended. */
  function Saved(ls: seq<string>, userId: string): (r: seq<string>)
  {
    if userId in ReadIds(ls) then ls else AppendText(ls, userId + "\n")
  }

  /** The lines after `remove_user_id(userId)`: unchanged when the id is not
      read back, otherwise the file is rewritten from the read ids without the
      first occurrence of `userId`. */
  function Removed(ls: seq<string>, userId: string): (r: seq<string>)
  {
    var users := ReadIds(ls);
    if userId in users then Render(RemoveFirst(users, userId)) else ls
  }

  class SubscriberStore {
    /** The raw lines of `users.txt`. */
    var lines: seq<string>

    ghost predicate Valid()
      reads this
    {
      WellFormed(lines)
    }

    /** What `read_user_ids` returns for the present file. */
    function Ids(): seq<string>
      reads this
    {
      ReadIds(lines)
    }

    /** A store on a file that does not exist yet: it is created empty. */
    constructor ()
      ensures Valid() && lines == [] && Ids() == []
    {
      lines := [];
    }

    /** A store on an existing file with the given content. */
    constructor Open(content: string)
      ensures Valid() && lines == SplitLines(content) && Join(lines) == content
    {
      lines := SplitLines(content);
      SplitWellFormed(content);
    }

    /** `f.write(text)` on the file opened in append mode. */
    method Append(text: string)
      requires Valid()
      modifies this
      ensures Valid() && lines == AppendText(old(lines), text)
    {
      lines := AppendText(lines, text);
    }

    /** `read_user_ids`: every id it returns is a plain id. */
    method ReadUserIds() returns (ids: seq<string>)
      requires Valid()
      ensures ids == ReadIds(lines)
      ensures |ids| <= |lines|
      ensures AllPlain(ids)
    {
      ids := ReadIds(lines);
      ReadIdsPlain(lines);
    }

    /** `len(read_user_ids())`, the `total_users` of `home` and `get_user_count`. */
    method UserCount() returns (n: nat)
      requires Valid()
      ensures n == |ReadIds(lines)|
      ensures n <= |lines|
    {
      var ids := ReadUserIds();
      n := |ids|;
    }

    /** `save_user_id`: true exactly when the id was not yet read back from the
        file, in which case `userId + "\n"` is appended; otherwise nothing is
        written. */
    method SaveUserId(userId: string) returns (isNew: bool)
      requires Valid()
      modifies this
      ensures Valid()
      ensures isNew <==> userId !in old(Ids())
      ensures lines == Saved(old(lines), userId)
      ensures !isNew ==> lines == old(lines)
      ensures isNew ==> EndsClean(lines)
      ensures isNew && EndsClean(old(lines)) && '\n' !in userId ==>
        lines == old(lines) + [userId + "\n"] && EndsClean(lines)
      ensures isNew && EndsClean(old(lines)) && IsPlainId(userId) ==>
        Ids() == old(Ids()) + [userId]
    {
      var existingUsers := ReadUserIds();
      if userId !in existingUsers {
        if EndsClean(lines) && '\n' !in userId {
          SaveNewAppendsOnce(lines, userId);
        }
        AppendEndsClean(lines, userId + "\n");
        Append(userId + "\n");
        isNew := true;
      } else {
        isNew := false;
      }
    }

    /** `remove_user_id`: true exactly when the id was read back from the file;
        then the file is emptied and every remaining id is written back, one
        per line, in the order read. */
    method RemoveUserId(userId: string) returns (removed: bool)
      requires Valid()
      modifies this
      ensures Valid()
      ensures removed <==> userId in old(Ids())
      ensures lines == Removed(old(lines), userId)
      ensures !removed ==> lines == old(lines)
      ensures removed ==> Ids() == RemoveFirst(old(Ids()), userId) && EndsClean(lines)
    {
      var users := ReadUserIds();
      if userId in users {
        ghost var read := users;
        users := RemoveFirst(users, userId);
        RemoveFirstKeepsPlain(read, userId);
        RenderRead(users);
        Rewrite(users);
        removed := true;
      } else {
        removed := false;
      }
    }

    /** `open(USERS_FILE, "w")` followed by `f.write(user + "\n")` for every
        user in turn. */
    method Rewrite(users: seq<string>)
      requires AllPlain(users)
      modifies this
      ensures Valid() && EndsClean(lines)
      ensures lines == Render(users)
    {
      lines := [];
      var i := 0;
      while i < |users|
        invariant 0 <= i <= |users|
        invariant WellFormed(lines) && EndsClean(lines)
        invariant lines == Render(users[..i])
      {
        assert '\n' !in users[i];
        RenderWellFormedStep(users[..i], users[i]);
        Append(users[i] + "\n");
        assert users[..i + 1] == users[..i] + [users[i]];
        i := i + 1;
      }
      assert users[..i] == users;
    }
  }

  /** What `list.remove` leaves of plain ids are plain ids. */
  lemma RemoveFirstKeepsPlain(s: seq<string>, x: string)
    requires AllPlain(s)
    ensures AllPlain(RemoveFirst(s, x))
  {
    var r := RemoveFirst(s, x);
    forall i | 0 <= i < |r| ensures IsPlainId(r[i]) {
      assert r[i] in r;
    }
  }

  /** One more write of the rewrite loop adds one line. */
  lemma RenderWellFormedStep(done: seq<string>, user: string)
    requires WellFormed(Render(done)) && EndsClean(Render(done))
    requires '\n' !in user
    ensures AppendText(Render(done), user + "\n") == Render(done + [user])
    ensures EndsClean(Render(done + [user]))
  {
    AppendAfterClean(Render(done), user + "\n");
    SplitOneLine(user);
    assert (done + [user])[..|done|] == done;
  }

  /** Saving a new id to a file that ends cleanly appends exactly the one line
      `userId + "\n"`; a plain id is then read back at the end. */
  lemma SaveNewAppendsOnce(ls: seq<string>, userId: string)
    requires WellFormed(ls) && EndsClean(ls)
    requires userId !in ReadIds(ls) && '\n' !in userId
    ensures Saved(ls, userId) == ls + [userId + "\n"]
    ensures EndsClean(Saved(ls, userId))
    ensures IsPlainId(userId) ==> ReadIds(Saved(ls, userId)) == ReadIds(ls) + [userId]
  {
    AppendAfterClean(ls, userId + "\n");
    SplitOneLine(userId);
    ReadIdsAppend(ls, [userId + "\n"]);
    if IsPlainId(userId) {
      ReadWrittenId(userId);
    }
  }

  /** `save(x); save(x)` on a fresh plain id: the first call inserts, the
      second finds it and writes nothing, and the count grows by exactly one. */
  lemma SaveTwice(ls: seq<string>, userId: string)
    requires WellFormed(ls) && EndsClean(ls)
    requires IsPlainId(userId) && userId !in ReadIds(ls)
    ensures userId in ReadIds(Saved(ls, userId))
    ensures Saved(Saved(ls, userId), userId) == Saved(ls, userId)
    ensures |ReadIds(Saved(Saved(ls, userId), userId))| == |ReadIds(ls)| + 1
  {
    SaveNewAppendsOnce(ls, userId);
  }

  /** `save_user_id` compares the raw id with the stripped ids it reads, so an
      id with leading whitespace is never found again: after two saves onto
      an empty file, the file reads back its stripped form twice. */
  lemma SavePaddedIdTwice(pad: string, x: string)
    requires pad != "" && AllSpace(pad) && '\n' !in pad && IsPlainId(x)
    ensures ReadIds(Saved(Saved([], pad + x), pad + x)) == [x] + [x]
  {
    var u := pad + x;
    var line := u + "\n";
    PaddedLine(pad, x);
    assert |u| > |x|;
    SaveUnreadTwice(u, x);
    ReadIdsAppend([line], [line]);
  }

  /** An id that is saved as one line but reads back as something else is
      appended again by the second save. */
  lemma SaveUnreadTwice(u: string, x: string)
    requires '\n' !in u && u != x
    requires Saved([], u) == [u + "\n"] && ReadIds([u + "\n"]) == [x]
    ensures Saved(Saved([], u), u) == [u + "\n"] + [u + "\n"]
  {
    AppendLineAgain(u);
    SaveUnread([u + "\n"], u);
  }

  lemma SaveUnread(ls: seq<string>, u: string)
    requires u !in ReadIds(ls)
    ensures Saved(ls, u) == AppendText(ls, u + "\n")
  {
  }

  /** Appending a line to a file holding just that line doubles it. */
  lemma AppendLineAgain(u: string)
    requires '\n' !in u
    ensures AppendText([u + "\n"], u + "\n") == [u + "\n"] + [u + "\n"]
  {
    var line := u + "\n";
    assert line[..|line| - 1] == u;
    assert WellFormed([line]) && EndsClean([line]);
    AppendAfterClean([line], line);
    SplitOneLine(u);
  }

  /** The first save of a padded id writes one line, which reads back as the
      id without its padding. */
  lemma PaddedLine(pad: string, x: string)
    requires AllSpace(pad) && '\n' !in pad && IsPlainId(x)
    ensures Saved([], pad + x) == [pad + x + "\n"]
    ensures SplitLines(pad + x + "\n") == [pad + x + "\n"]
    ensures ReadIds([pad + x + "\n"]) == [x]
  {
    var u := pad + x;
    var line := u + "\n";
    assert '\n' !in u;
    SplitOneLine(u);
    assert Join([]) + line == line;
    assert AllSpace("\n");
    StripUnique(pad, x, "\n");
    assert [line][1..] == [];
  }

  /** A save onto a file whose last line has no '\n' continues that line:
      a stored id `u` other than `x` becomes `u + x`, so `x` is still not read back and a
      second save of `x` reports a new id again and appends another line. */
  lemma SaveOnUnterminatedLine(u: string, x: string)
    requires IsPlainId(u) && IsPlainId(x) && u != x
    ensures Saved([u], x) == [u + x + "\n"]
    ensures ReadIds(Saved([u], x)) == [u + x] && x !in ReadIds(Saved([u], x))
    ensures Saved(Saved([u], x), x) == [u + x + "\n"] + [x + "\n"]
    ensures ReadIds(Saved(Saved([u], x), x)) == [u + x] + [x]
  {
    var line := u + x + "\n";
    ContinueLastLine(u, x);
    assert |u + x| > |x|;
    SaveNewAppendsOnce([line], x);
  }

  /** The first save onto the unterminated line `u`. */
  lemma ContinueLastLine(u: string, x: string)
    requires IsPlainId(u) && IsPlainId(x) && u != x
    ensures Saved([u], x) == [u + x + "\n"]
    ensures ReadIds([u + x + "\n"]) == [u + x]
    ensures WellFormed([u + x + "\n"]) && EndsClean([u + x + "\n"])
  {
    var ux := u + x;
    assert IsPlainId(ux) by {
      assert ux[0] == u[0] && ux[|ux| - 1] == x[|x| - 1];
    }
    ReadOneLine(u);
    AppendOntoLine(u, x);
    ReadWrittenId(ux);
    var line := ux + "\n";
    assert line[..|line| - 1] == ux;
  }

  /** An unterminated line holding a plain id reads back as that id. */
  lemma ReadOneLine(u: string)
    requires IsPlainId(u)
    ensures ReadIds([u]) == [u]
  {
    PlainIdIsStripped(u);
    assert [u][1..] == [];
  }

  /** Text appended after an unterminated line continues it. */
  lemma AppendOntoLine(u: string, x: string)
    requires u != "" && '\n' !in u + x
    ensures AppendText([u], x + "\n") == [u + x + "\n"]
  {
    var line := u + x + "\n";
    assert Join([u]) == u by {
      assert [u][1..] == [];
    }
    assert Join([u]) + (x + "\n") == line;
    SplitOneLine(u + x);
  }

  /** Removing a present id rewrites the file as the read ids without the
      first occurrence, in their original order: blank lines and surrounding
      whitespace of the old file are gone and the file ends cleanly. */
  lemma RemovePresent(ls: seq<string>, userId: string, i: nat)
    requires WellFormed(ls)
    requires i < |ReadIds(ls)| && ReadIds(ls)[i] == userId && userId !in ReadIds(ls)[..i]
    ensures Removed(ls, userId) == Render(ReadIds(ls)[..i] + ReadIds(ls)[i + 1..])
    ensures ReadIds(Removed(ls, userId)) == ReadIds(ls)[..i] + ReadIds(ls)[i + 1..]
    ensures WellFormed(Removed(ls, userId)) && EndsClean(Removed(ls, userId))
  {
    var users := ReadIds(ls);
    ReadIdsPlain(ls);
    RemoveFirstSplit(users, userId, i);
    var rest := RemoveFirst(users, userId);
    RemoveFirstKeepsPlain(users, userId);
    RenderRead(rest);
    RenderWellFormed(rest);
  }

  /** The file keeps no duplicates: from a duplicate-free file that ends
      cleanly, saving a plain id keeps it so. */
  lemma SaveKeepsNoDuplicates(ls: seq<string>, userId: string)
    requires WellFormed(ls) && EndsClean(ls) && NoDuplicates(ReadIds(ls))
    requires IsPlainId(userId)
    ensures WellFormed(Saved(ls, userId)) && EndsClean(Saved(ls, userId))
    ensures NoDuplicates(ReadIds(Saved(ls, userId)))
  {
    if userId !in ReadIds(ls) {
      SaveNewAppendsOnce(ls, userId);
    }
  }

  /** Removing any id keeps a duplicate-free file duplicate-free, and leaves
      the id absent, whether or not the file ends in '\n'. */
  lemma RemoveKeepsNoDuplicates(ls: seq<string>, userId: string)
    requires WellFormed(ls) && NoDuplicates(ReadIds(ls))
    ensures WellFormed(Removed(ls, userId))
    ensures EndsClean(ls) || userId in ReadIds(ls) ==> EndsClean(Removed(ls, userId))
    ensures NoDuplicates(ReadIds(Removed(ls, userId)))
    ensures userId !in ReadIds(Removed(ls, userId))
  {
    var users := ReadIds(ls);
    if userId in users {
      ReadIdsPlain(ls);
      var rest := RemoveFirst(users, userId);
      assert forall k :: 0 <= k < |rest| ==> IsPlainId(rest[k]) by {
        forall k | 0 <= k < |rest| ensures IsPlainId(rest[k]) {
          assert rest[k] in rest;
        }
      }
      RenderRead(rest);
      RenderWellFormed(rest);
      RemoveFirstNoDuplicates(users, userId);
    }
  }

  /** Saving a new plain id to a file ending in '\n' and then removing it
      restores the ids read. */
  lemma SaveThenRemove(ls: seq<string>, userId: string)
    requires WellFormed(ls) && EndsClean(ls)
    requires IsPlainId(userId) && userId !in ReadIds(ls)
    ensures ReadIds(Removed(Saved(ls, userId), userId)) == ReadIds(ls)
  {
    var users := ReadIds(ls);
    var saved := Saved(ls, userId);
    SaveNewAppendsOnce(ls, userId);
    assert ReadIds(saved) == users + [userId];
    RemoveLast(users, userId);
    assert Removed(saved, userId) == Render(users);
    ReadIdsPlain(ls);
    RenderRead(users);
  }

  /** Removing an id that occurs only at the end drops that last element. */
  lemma RemoveLast(users: seq<string>, userId: string)
    requires userId !in users
    ensures RemoveFirst(users + [userId], userId) == users
  {
    var more := users + [userId];
    assert more[..|users|] == users && more[|users| + 1..] == [];
    RemoveFirstSplit(more, userId, |users|);
  }

  /** An administrative or event-driven change of the store. */
  datatype Op = Save(userId: string) | Remove(userId: string)

  /** The lines after applying `ops` in order. */
  function Apply(ls: seq<string>, ops: seq<Op>): seq<string>
    decreases |ops|
  {
    if ops == [] then ls
    else
      var next := match ops[0]
        case Save(u) => Saved(ls, u)
        case Remove(u) => Removed(ls, u);
      Apply(next, ops[1..])
  }

  /** Starting from a duplicate-free file that ends cleanly, every sequence of
      saves of plain ids and removes of any ids leaves `read_user_ids()`
      duplicate-free. */
  lemma {:induction false} ApplyKeepsNoDuplicates(ls: seq<string>, ops: seq<Op>)
    requires WellFormed(ls) && EndsClean(ls) && NoDuplicates(ReadIds(ls))
    requires forall k :: 0 <= k < |ops| && ops[k].Save? ==> IsPlainId(ops[k].userId)
    ensures NoDuplicates(ReadIds(Apply(ls, ops)))
    decreases |ops|
  {
    if ops != [] {
      var next;
      match ops[0] {
        case Save(u) =>
          SaveKeepsNoDuplicates(ls, u);
          next := Saved(ls, u);
        case Remove(u) =>
          RemoveKeepsNoDuplicates(ls, u);
          next := Removed(ls, u);
      }
      assert forall k :: 0 <= k < |ops[1..]| ==> ops[1..][k] == ops[k + 1];
      ApplyKeepsNoDuplicates(next, ops[1..]);
    }
  }
}
