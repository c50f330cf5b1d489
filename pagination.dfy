/**
  The view projection of src/App.js: the slice of the task list shown on
  the current page, the page count printed beside the buttons, and the
  guards of the "Previous" and "Next" buttons. Ten tasks per page.
*/
module Pagination {

  const TasksPerPage: nat := 10

  function Min(a: int, b: int): int {
    if a <= b then a else b
  }

  /**
    How `Array.prototype.slice` reads an index into a list of length `n`:
    a negative index counts back from the end, and the result is clamped
    into `0..n`.
  */
  function RelativeIndex(i: int, n: nat): (r: nat)
    ensures r <= n
    ensures 0 <= i ==> r == Min(i, n)
  {
    if i < 0 then (if n + i < 0 then 0 else n + i)
    else if i > n then n
    else i
  }

  /** `s.slice(start, end)`: empty when the clamped end is not past the clamped start. */
  function Slice<T>(s: seq<T>, start: int, end: int): (r: seq<T>)
    ensures |r| <= |s|
    ensures 0 <= start <= end ==> r == s[Min(start, |s|)..Min(end, |s|)]
  {
    var b, e := RelativeIndex(start, |s|), RelativeIndex(end, |s|);
    if b < e then s[b..e] else []
  }

  /**
    `currentTasks`: `tasks.slice(indexOfFirstTask, indexOfLastTask)` with
    `indexOfLastTask = currentPage * tasksPerPage`. It never holds more than
    a page, and for a page number of at least 1 it is the contiguous run
    starting at `(currentPage - 1) * 10`, clipped to the list.
  */
  function CurrentTasks<T>(tasks: seq<T>, currentPage: int): (r: seq<T>)
    ensures |r| <= TasksPerPage
    ensures currentPage >= 1 ==>
      r == tasks[Min((currentPage - 1) * TasksPerPage, |tasks|)..Min(currentPage * TasksPerPage, |tasks|)]
  {
    var indexOfLastTask := currentPage * TasksPerPage;
    var indexOfFirstTask := indexOfLastTask - TasksPerPage;
    Slice(tasks, indexOfFirstTask, indexOfLastTask)
  }

  /**
    `Math.ceil(tasks.length / tasksPerPage)`: the fewest pages that hold
    all `n` tasks, which is at least 1 whenever there is a task (the only
    time it is shown).
  */
  function PageCount(n: nat): (r: nat)
    ensures r * TasksPerPage >= n
    ensures n > 0 ==> r >= 1 && (r - 1) * TasksPerPage < n
    ensures n == 0 ==> r == 0
  {
    (n + TasksPerPage - 1) / TasksPerPage
  }

  /**
    The guard of `prevPage`. On a page of at least 1 it agrees with the
    button, which is disabled exactly at page 1.
  */
  predicate HasPrev(currentPage: int): (r: bool)
    ensures currentPage >= 1 ==> (r <==> currentPage != 1)
  {
    currentPage > 1
  }

  /**
    The guard of `nextPage`; the button is disabled exactly when it fails.
    From a page of at least 1 it never holds for ten tasks or fewer.
  */
  predicate HasNext(currentPage: int, n: nat): (r: bool)
    ensures r <==> !(currentPage * TasksPerPage >= n)
    ensures currentPage >= 1 && r ==> n > TasksPerPage
  {
    currentPage * TasksPerPage < n
  }

  /** On a page of at least 1, "Next" is enabled exactly when a later page exists. */
  lemma HasNextIffMorePages(currentPage: int, n: nat)
    requires currentPage >= 1
    ensures HasNext(currentPage, n) <==> currentPage < PageCount(n)
  {
    if currentPage < PageCount(n) {
      assert currentPage * TasksPerPage <= (PageCount(n) - 1) * TasksPerPage;
    }
  }

  /** The page "Next" leads to is never empty. */
  lemma NextPageNonEmpty<T>(tasks: seq<T>, currentPage: int)
    requires currentPage >= 1
    requires HasNext(currentPage, |tasks|)
    ensures CurrentTasks(tasks, currentPage + 1) != []
  {
    assert |CurrentTasks(tasks, currentPage + 1)| == Min((currentPage + 1) * TasksPerPage, |tasks|) - currentPage * TasksPerPage;
  }

  /** Task `i` is shown on page `i / 10 + 1`, at row `i % 10`, and that page is within the count. */
  lemma TaskOnItsPage<T>(tasks: seq<T>, i: nat)
    requires i < |tasks|
    ensures 1 <= i / TasksPerPage + 1 <= PageCount(|tasks|)
    ensures i % TasksPerPage < |CurrentTasks(tasks, i / TasksPerPage + 1)|
    ensures CurrentTasks(tasks, i / TasksPerPage + 1)[i % TasksPerPage] == tasks[i]
  {
    var p := i / TasksPerPage + 1;
    assert (p - 1) * TasksPerPage + i % TasksPerPage == i;
    assert (p - 1) * TasksPerPage < PageCount(|tasks|) * TasksPerPage;
  }

  /** Pages 1 to `count` shown one after another. */
  function Pages<T>(tasks: seq<T>, count: nat): seq<T> {
    if count == 0 then [] else Pages(tasks, count - 1) + CurrentTasks(tasks, count)
  }

  /** The first `count` pages are the first `count * 10` tasks, in order. */
  lemma {:induction false} PagesArePrefix<T>(tasks: seq<T>, count: nat)
    ensures Pages(tasks, count) == tasks[..Min(count * TasksPerPage, |tasks|)]
  {
    if count > 0 {
      PagesArePrefix(tasks, count - 1);
      var a, b := Min((count - 1) * TasksPerPage, |tasks|), Min(count * TasksPerPage, |tasks|);
      assert tasks[..a] + tasks[a..b] == tasks[..b];
    }
  }

  /** All pages together show every task exactly once, in list order. */
  lemma PagesCoverTasks<T>(tasks: seq<T>)
    ensures Pages(tasks, PageCount(|tasks|)) == tasks
  {
    PagesArePrefix(tasks, PageCount(|tasks|));
  }

  /** Twenty-five tasks: three pages, the first full with "Next" enabled, the third holding the last five. */
  lemma TwentyFiveTasks<T>(tasks: seq<T>)
    requires |tasks| == 25
    ensures CurrentTasks(tasks, 1) == tasks[..10]
    ensures PageCount(|tasks|) == 3
    ensures !HasPrev(1) && HasNext(1, |tasks|)
    ensures CurrentTasks(tasks, 3) == tasks[20..]
    ensures HasPrev(3) && !HasNext(3, |tasks|)
  {
  }
}
