/**
 * The grade query of the parent dashboard: the rows of the result set, read
 * one by one, are folded into an insertion-ordered map from subject name to
 * the list of that subject's grades.
 */
module Grouping {
  import opened Wrappers
  import opened Grades

  /** One row of the result set: the subject's name, the score and the comment. */
  datatype Row = Row(subject: string, score: int, comment: Option<string>)

  /** The grade a row becomes: the row's score and comment, a NULL comment staying absent. */
  function ItemOf(r: Row): (g: GradeItem)
    ensures g.score == r.score && g.comment == r.comment
  {
    GradeItem(r.score, r.comment)
  }

  /**
   * The insertion-ordered map from subject to grades: the keys in the order
   * in which they were first inserted, and the list held under each key.
   */
  datatype SubjectGrades = SubjectGrades(order: seq<string>, grades: map<string, seq<GradeItem>>)

  /** The empty map the query starts from. */
  const EMPTY: SubjectGrades := SubjectGrades([], map[])

  /**
   * The map is consistent: each key is listed once, the listed keys are the
   * keys of the map, and no key holds an empty list.
   */
  ghost predicate Valid(m: SubjectGrades)
  {
    && (forall i, j :: 0 <= i < j < |m.order| ==> m.order[i] != m.order[j])
    && (forall k :: k in m.grades <==> k in m.order)
    && (forall k :: k in m.grades ==> m.grades[k] != [])
  }

  /**
   * One step of the loop: look the subject up, create an empty list under it
   * if it is absent, and append the grade. Only the subject's entry changes;
   * a new subject goes to the end of the key order, and the order is
   * otherwise kept.
   */
  function Add(m: SubjectGrades, subject: string, item: GradeItem): (r: SubjectGrades)
    ensures r.grades.Keys == m.grades.Keys + {subject}
    ensures subject in m.grades ==> r.order == m.order && r.grades[subject] == m.grades[subject] + [item]
    ensures subject !in m.grades ==> r.order == m.order + [subject] && r.grades[subject] == [item]
    ensures forall k :: k in m.grades && k != subject ==> r.grades[k] == m.grades[k]
    ensures Valid(m) ==> Valid(r)
  {
    if subject in m.grades then
      SubjectGrades(m.order, m.grades[subject := m.grades[subject] + [item]])
    else
      SubjectGrades(m.order + [subject], m.grades[subject := [item]])
  }

  /** The map the loop has built after reading the given rows, in order. */
  function Grouped(rows: seq<Row>): (m: SubjectGrades)
    ensures Valid(m)
    ensures m.order == [] <==> rows == []
  {
    if rows == [] then EMPTY
    else
      var last := rows[|rows| - 1];
      Add(Grouped(rows[..|rows| - 1]), last.subject, ItemOf(last))
  }

  /**
   * The row loop of the query. The result set is given as the sequence of
   * rows it delivers, in whatever order the database chose. The map it
   * builds has a key for each subject of the rows, in the order in which
   * the subjects first occur; under each key, the grades of that subject's
   * rows in row order; and as many grades in all as there were rows.
   */
  method FetchGrades(rows: seq<Row>) returns (data: SubjectGrades)
    ensures data == Grouped(rows)
    ensures data.grades.Keys == SubjectsOf(rows)
    ensures forall k :: k in data.grades ==> data.grades[k] == ItemsOf(rows, k)
    ensures OrderedByFirstRow(rows, data.order)
    ensures CountAll(data.order, data.grades) == |rows|
  {
    data := EMPTY;
    for i := 0 to |rows|
      invariant data == Grouped(rows[..i])
    {
      var row := rows[i];
      assert rows[..i + 1][..i] == rows[..i];
      data := Add(data, row.subject, ItemOf(row));
    }
    assert rows[..|rows|] == rows;
    GroupedKeys(rows);
    GroupedItems(rows);
    GroupedOrder(rows);
    GroupedConserves(rows);
  }

  /** The subjects that occur in the rows. */
  function SubjectsOf(rows: seq<Row>): set<string>
  {
    set r | r in rows :: r.subject
  }

  /** The grades of the rows of one subject, in the order of the rows. */
  function ItemsOf(rows: seq<Row>, subject: string): seq<GradeItem>
  {
    if rows == [] then []
    else (if rows[0].subject == subject then [ItemOf(rows[0])] else []) + ItemsOf(rows[1..], subject)
  }

  /**
   * The position of the first row of a subject, or the number of rows when
   * no row has that subject.
   */
  function FirstIndex(rows: seq<Row>, subject: string): (p: nat)
    ensures p <= |rows|
    ensures p < |rows| ==> rows[p].subject == subject
    ensures forall q :: 0 <= q < p && q < |rows| ==> rows[q].subject != subject
  {
    if rows == [] then 0
    else if rows[0].subject == subject then 0
    else 1 + FirstIndex(rows[1..], subject)
  }

  /** The number of grades held under the listed keys. */
  function CountAll(order: seq<string>, grades: map<string, seq<GradeItem>>): nat
  {
    if order == [] then 0
    else (if order[0] in grades then |grades[order[0]]| else 0) + CountAll(order[1..], grades)
  }

  /** Reading one more row adds its grade at the end of its subject's list and nowhere else. */
  lemma {:induction false} ItemsOfSnoc(rows: seq<Row>, r: Row, subject: string)
    ensures ItemsOf(rows + [r], subject)
      == ItemsOf(rows, subject) + (if r.subject == subject then [ItemOf(r)] else [])
  {
    if rows == [] {
      assert rows + [r] == [r];
      assert ItemsOf([r][1..], subject) == [];
    } else {
      assert (rows + [r])[1..] == rows[1..] + [r];
      ItemsOfSnoc(rows[1..], r, subject);
    }
  }

  /** The keys of the grouped map are exactly the subjects of the rows. */
  lemma {:induction false} GroupedKeys(rows: seq<Row>)
    ensures Grouped(rows).grades.Keys == SubjectsOf(rows)
  {
    if rows != [] {
      var init, last := rows[..|rows| - 1], rows[|rows| - 1];
      assert rows == init + [last];
      GroupedKeys(init);
      GroupedSnoc(init, last);
      SubjectsOfSnoc(init, last);
    }
  }

  /** The grade of every row is among the grades of its own subject. */
  lemma {:induction false} RowInItems(rows: seq<Row>, r: Row)
    requires r in rows
    ensures ItemOf(r) in ItemsOf(rows, r.subject)
  {
    if rows[0] != r {
      RowInItems(rows[1..], r);
    }
  }

  /**
   * No row is lost or misfiled: the grouped map has a key for the subject of
   * every row, and that row's grade is in the list under it.
   */
  lemma GroupedPlacesRow(rows: seq<Row>, r: Row)
    requires r in rows
    ensures r.subject in Grouped(rows).grades
    ensures ItemOf(r) in Grouped(rows).grades[r.subject]
  {
    GroupedKeys(rows);
    GroupedItems(rows);
    RowInItems(rows, r);
  }

  /** The subjects of one more row are the earlier subjects and the row's own. */
  lemma SubjectsOfSnoc(init: seq<Row>, last: Row)
    ensures SubjectsOf(init + [last]) == SubjectsOf(init) + {last.subject}
  {
    var rows := init + [last];
    forall s | s in SubjectsOf(rows) ensures s in SubjectsOf(init) + {last.subject} {
      var r :| r in rows && r.subject == s;
      if r != last {
        assert r in init;
      }
    }
    forall s | s in SubjectsOf(init) ensures s in SubjectsOf(rows) {
      var r :| r in init && r.subject == s;
      assert r in rows;
    }
    assert last in rows;
  }

  /**
   * Every subject's list holds exactly the grades of that subject's rows, in
   * the order of the rows: nothing is dropped, duplicated or reordered.
   */
  lemma {:induction false} GroupedItems(rows: seq<Row>)
    ensures forall k :: k in Grouped(rows).grades ==> Grouped(rows).grades[k] == ItemsOf(rows, k)
  {
    if rows != [] {
      var init, last := rows[..|rows| - 1], rows[|rows| - 1];
      GroupedItems(init);
      assert rows == init + [last];
      forall k | k in Grouped(rows).grades
        ensures Grouped(rows).grades[k] == ItemsOf(rows, k)
      {
        ItemsOfSnoc(init, last, k);
        if k != last.subject {
          assert ItemsOf(init, k) == ItemsOf(rows, k);
          if k !in Grouped(init).grades {
            assert false;
          }
        } else if k !in Grouped(init).grades {
          GroupedKeys(init);
          ItemsOfAbsent(init, k);
        }
      }
    }
  }

  /** A subject that occurs in no row has no grades. */
  lemma {:induction false} ItemsOfAbsent(rows: seq<Row>, subject: string)
    requires subject !in SubjectsOf(rows)
    ensures ItemsOf(rows, subject) == []
  {
    if rows != [] {
      assert rows[0] in rows;
      assert SubjectsOf(rows[1..]) <= SubjectsOf(rows) by {
        forall s | s in SubjectsOf(rows[1..]) ensures s in SubjectsOf(rows) {
          var r :| r in rows[1..] && r.subject == s;
          assert r in rows;
        }
      }
      ItemsOfAbsent(rows[1..], subject);
    }
  }

  /** A subject already seen keeps its first position when a row is read. */
  lemma FirstIndexSnoc(rows: seq<Row>, r: Row, subject: string)
    ensures FirstIndex(rows, subject) < |rows| ==> FirstIndex(rows + [r], subject) == FirstIndex(rows, subject)
    ensures FirstIndex(rows, subject) == |rows| && r.subject == subject ==> FirstIndex(rows + [r], subject) == |rows|
  {
    var p := FirstIndex(rows, subject);
    if p < |rows| {
      assert (rows + [r])[p] == rows[p];
    } else if r.subject == subject {
      assert (rows + [r])[|rows|] == r;
    }
  }

  /** A subject has a first row exactly when some row has it. */
  lemma FirstIndexFound(rows: seq<Row>, subject: string)
    ensures FirstIndex(rows, subject) < |rows| <==> subject in SubjectsOf(rows)
  {
    var p := FirstIndex(rows, subject);
    if subject in SubjectsOf(rows) {
      var r :| r in rows && r.subject == subject;
      var q :| 0 <= q < |rows| && rows[q] == r;
    }
  }

  /** Every key of the order sits at a strictly later first row than the keys before it. */
  ghost predicate OrderedByFirstRow(rows: seq<Row>, order: seq<string>)
  {
    && (forall i :: 0 <= i < |order| ==> FirstIndex(rows, order[i]) < |rows|)
    && (forall i, j :: 0 <= i < j < |order| ==> FirstIndex(rows, order[i]) < FirstIndex(rows, order[j]))
  }

  /**
   * The keys come in the order in which their subjects first occur in the
   * rows, whatever the order of the rows.
   */
  lemma {:induction false} GroupedOrder(rows: seq<Row>)
    ensures OrderedByFirstRow(rows, Grouped(rows).order)
  {
    if rows != [] {
      var init, last := rows[..|rows| - 1], rows[|rows| - 1];
      assert rows == init + [last];
      GroupedOrder(init);
      GroupedOrderStep(init, last);
    }
  }

  /** Reading one row keeps the order of the keys ordered by their first rows. */
  lemma GroupedOrderStep(init: seq<Row>, last: Row)
    requires OrderedByFirstRow(init, Grouped(init).order)
    ensures OrderedByFirstRow(init + [last], Grouped(init + [last]).order)
  {
    var rows := init + [last];
    var m := Grouped(init);
    GroupedSnoc(init, last);
    OrderedSnoc(init, last, m.order);
    if last.subject !in m.grades {
      GroupedKeys(init);
      FirstIndexFound(init, last.subject);
      FirstIndexSnoc(init, last, last.subject);
      AppendLatest(rows, m.order, last.subject);
    }
  }

  /** The map after one more row is the map before it with that row added. */
  lemma GroupedSnoc(init: seq<Row>, last: Row)
    ensures Grouped(init + [last]) == Add(Grouped(init), last.subject, ItemOf(last))
  {
    assert (init + [last])[..|init|] == init;
  }

  /** Reading one more row moves no first row of a key that was already ordered. */
  lemma OrderedSnoc(init: seq<Row>, last: Row, order: seq<string>)
    requires OrderedByFirstRow(init, order)
    ensures OrderedByFirstRow(init + [last], order)
    ensures forall i :: 0 <= i < |order| ==> FirstIndex(init + [last], order[i]) < |init|
  {
    forall i | 0 <= i < |order|
      ensures FirstIndex(init + [last], order[i]) == FirstIndex(init, order[i])
    {
      FirstIndexSnoc(init, last, order[i]);
    }
  }

  /** A key whose first row comes after every row of the ordered keys may be appended. */
  lemma AppendLatest(rows: seq<Row>, order: seq<string>, subject: string)
    requires OrderedByFirstRow(rows, order)
    requires FirstIndex(rows, subject) == |rows| - 1
    requires forall i :: 0 <= i < |order| ==> FirstIndex(rows, order[i]) < |rows| - 1
    ensures OrderedByFirstRow(rows, order + [subject])
  {
    var after := order + [subject];
    forall i | 0 <= i < |after| ensures FirstIndex(rows, after[i]) < |rows| {
      if i < |order| {
        assert after[i] == order[i];
      }
    }
    forall i, j | 0 <= i < j < |after|
      ensures FirstIndex(rows, after[i]) < FirstIndex(rows, after[j])
    {
      assert after[i] == order[i];
      if j < |order| {
        assert after[j] == order[j];
      }
    }
  }

  /** Reading the keys in order and counting, a changed list changes the count by its change in length. */
  lemma {:induction false} CountAllUpdate(order: seq<string>, grades: map<string, seq<GradeItem>>, k: string, v: seq<GradeItem>)
    requires forall i, j :: 0 <= i < j < |order| ==> order[i] != order[j]
    requires k in grades
    ensures CountAll(order, grades[k := v])
      == CountAll(order, grades) + (if k in order then |v| - |grades[k]| else 0)
  {
    if order != [] {
      assert forall i, j :: 0 <= i < j < |order[1..]| ==> order[1..][i] != order[1..][j] by {
        forall i, j | 0 <= i < j < |order[1..]| ensures order[1..][i] != order[1..][j] {
          assert order[1..][i] == order[i + 1] && order[1..][j] == order[j + 1];
        }
      }
      CountAllUpdate(order[1..], grades, k, v);
      if order[0] != k {
        assert k in order <==> k in order[1..];
      }
    }
  }

  /** A key appended to the order adds the length of its list to the count. */
  lemma {:induction false} CountAllSnoc(order: seq<string>, grades: map<string, seq<GradeItem>>, k: string)
    requires k in grades
    ensures CountAll(order + [k], grades) == CountAll(order, grades) + |grades[k]|
  {
    if order == [] {
      assert [k][1..] == [];
    } else {
      assert (order + [k])[1..] == order[1..] + [k];
      CountAllSnoc(order[1..], grades, k);
    }
  }

  /** A key outside the order does not affect the count. */
  lemma {:induction false} CountAllOutside(order: seq<string>, grades: map<string, seq<GradeItem>>, k: string, v: seq<GradeItem>)
    requires k !in order
    ensures CountAll(order, grades[k := v]) == CountAll(order, grades)
  {
    if order != [] {
      assert k !in order[1..];
      CountAllOutside(order[1..], grades, k, v);
    }
  }

  /** The grouped lists together hold exactly as many grades as there were rows. */
  lemma {:induction false} GroupedConserves(rows: seq<Row>)
    ensures CountAll(Grouped(rows).order, Grouped(rows).grades) == |rows|
  {
    if rows != [] {
      var init, last := rows[..|rows| - 1], rows[|rows| - 1];
      GroupedConserves(init);
      var m := Grouped(init);
      var s, x := last.subject, ItemOf(last);
      if s in m.grades {
        CountAllUpdate(m.order, m.grades, s, m.grades[s] + [x]);
      } else {
        CountAllOutside(m.order, m.grades, s, [x]);
        CountAllSnoc(m.order, m.grades[s := [x]], s);
      }
    }
  }

  /**
   * What has been grouped after reading a prefix of the rows is a prefix of
   * the final map: its keys start the final key order and each of its lists
   * starts the final list of that key. This is what the query returns when
   * reading the result set fails part way.
   */
  lemma {:induction false} GroupedPrefix(rows: seq<Row>, n: nat)
    requires n <= |rows|
    ensures var part, whole := Grouped(rows[..n]), Grouped(rows);
      && part.order <= whole.order
      && forall k :: k in part.grades ==> k in whole.grades && part.grades[k] <= whole.grades[k]
  {
    if n < |rows| {
      var init := rows[..|rows| - 1];
      assert init[..n] == rows[..n];
      GroupedPrefix(init, n);
    } else {
      assert rows[..n] == rows;
    }
  }

  /**
   * A worked example of three rows: two mathematics grades
   * and one science grade give two cards in first-seen order, with averages
   * 75 and 100.
   */
  lemma GroupedExample()
    ensures var rows := [Row("Math", 95, Some("great")), Row("Math", 55, None), Row("Science", 100, Some(""))];
      var m := Grouped(rows);
      && m.order == ["Math", "Science"]
      && m.grades["Math"] == [GradeItem(95, Some("great")), GradeItem(55, None)]
      && m.grades["Science"] == [GradeItem(100, Some(""))]
      && Average(m.grades["Math"]) == 75.0
      && Average(m.grades["Science"]) == 100.0
  {
    var rows := [Row("Math", 95, Some("great")), Row("Math", 55, None), Row("Science", 100, Some(""))];
    assert rows[..2][..1] == [rows[0]];
    assert rows[..2] == [rows[0], rows[1]];
    assert rows[..1] == [rows[0]];
    assert ("Science" == "Math") == false by { assert |"Science"| != |"Math"|; }
    assert ScoreSum([GradeItem(95, Some("great")), GradeItem(55, None)]) == 150;
    assert ScoreSum([GradeItem(100, Some(""))]) == 100;
  }
}
