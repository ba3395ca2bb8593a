/** The faculty catalogue and the classification of a department into the
    faculty that lists it (`get_faculty`). */
module Faculty {

  /** One entry of the ordered faculty -> departments mapping. */
  datatype FacultyEntry = FacultyEntry(name: string, departments: seq<string>)

  /** The catalogue in the iteration order of the source's dict literal. */
  type Catalogue = seq<FacultyEntry>

  /** The catch-all faculty for a department no entry lists. */
  const Others: string := "Others"

  /** `FACULTY_DEPARTMENTS`, in its declaration order. */
  const FacultyDepartments: Catalogue := [
    FacultyEntry("Faculty of Science and Engineering", [
      "Mathematics",
      "Computer Science & Engineering",
      "Chemistry",
      "Physics",
      "Geology and Mining",
      "Statistics"]),
    FacultyEntry("Faculty of Bio-Sciences", [
      "Soil and Environmental Sciences",
      "Botany",
      "Coastal Studies and Disaster Management",
      "Biochemistry and Biotechnology"]),
    FacultyEntry("Faculty of Business Studies", [
      "Management Studies",
      "Accounting and Information Systems",
      "Marketing",
      "Finance and Banking"]),
    FacultyEntry("Faculty of Social Sciences", [
      "Economics",
      "Political Science",
      "Sociology",
      "Public Administration",
      "Mass Communication & Journalism",
      "Social Work"]),
    FacultyEntry("Faculty of Arts and Humanities", [
      "Bangla",
      "English",
      "Philosophy",
      "History"]),
    FacultyEntry("Faculty of Law", [
      "Law"])
  ]

  function FacultyNames(catalogue: Catalogue): set<string> {
    set e | e in catalogue :: e.name
  }

  /** Entry `k` is the first, in catalogue order, whose list holds `dept`. */
  predicate FirstListing(catalogue: Catalogue, dept: string, k: int) {
    0 <= k < |catalogue| && dept in catalogue[k].departments &&
    forall j | 0 <= j < k :: dept !in catalogue[j].departments
  }

  predicate Unlisted(catalogue: Catalogue, dept: string) {
    forall k | 0 <= k < |catalogue| :: dept !in catalogue[k].departments
  }

  /** `get_faculty`: walk the entries in order and return the name of the
      first one whose department list contains `dept`; `"Others"` when none does. */
  function GetFaculty(catalogue: Catalogue, dept: string): (faculty: string)
    ensures faculty == Others || faculty in FacultyNames(catalogue)
  {
    if catalogue == [] then Others
    else if dept in catalogue[0].departments then catalogue[0].name
    else GetFaculty(catalogue[1..], dept)
  }

  /** The result is the name of the first entry that lists the department. */
  lemma {:induction false} GetFacultyFirstListing(catalogue: Catalogue, dept: string, k: int)
    requires FirstListing(catalogue, dept, k)
    ensures GetFaculty(catalogue, dept) == catalogue[k].name
  {
    if k > 0 {
      assert dept !in catalogue[0].departments;
      GetFacultyFirstListing(catalogue[1..], dept, k - 1);
    }
  }

  /** A department no entry lists falls into `"Others"`. */
  lemma {:induction false} GetFacultyUnlisted(catalogue: Catalogue, dept: string)
    requires Unlisted(catalogue, dept)
    ensures GetFaculty(catalogue, dept) == Others
  {
    if catalogue != [] {
      assert dept !in catalogue[0].departments;
      GetFacultyUnlisted(catalogue[1..], dept);
    }
  }

  /** Every department is either unlisted or has a first listing, so the two
      lemmas above determine `GetFaculty` on every input. */
  lemma {:induction false} ListedOrNot(catalogue: Catalogue, dept: string)
    ensures Unlisted(catalogue, dept) || exists k :: FirstListing(catalogue, dept, k)
  {
    if catalogue != [] {
      if dept in catalogue[0].departments {
        assert FirstListing(catalogue, dept, 0);
      } else {
        ListedOrNot(catalogue[1..], dept);
        if Unlisted(catalogue[1..], dept) {
          forall k | 0 <= k < |catalogue| ensures dept !in catalogue[k].departments {
            if k > 0 { assert catalogue[k] == catalogue[1..][k - 1]; }
          }
        } else {
          var k :| FirstListing(catalogue[1..], dept, k);
          assert FirstListing(catalogue, dept, k + 1);
        }
      }
    }
  }

  /** No department is listed under two different entries. */
  predicate DisjointDepartments(catalogue: Catalogue) {
    forall i, j | 0 <= i < j < |catalogue| ::
      ListsDisjoint(catalogue[i].departments, catalogue[j].departments)
  }

  predicate ListsDisjoint(a: seq<string>, b: seq<string>) {
    forall d | d in a :: d !in b
  }

  /** With disjoint lists, the faculty is the one entry that lists the
      department, whatever its position. */
  lemma GetFacultyUnique(catalogue: Catalogue, dept: string, k: int)
    requires DisjointDepartments(catalogue)
    requires 0 <= k < |catalogue| && dept in catalogue[k].departments
    ensures GetFaculty(catalogue, dept) == catalogue[k].name
  {
    assert FirstListing(catalogue, dept, k);
    GetFacultyFirstListing(catalogue, dept, k);
  }

  /** Entry `i`'s list shares no department with any later entry's list. */
  predicate DisjointFromLater(catalogue: Catalogue, i: int)
    requires 0 <= i < |catalogue|
  {
    forall j | i < j < |catalogue| :: ListsDisjoint(catalogue[i].departments, catalogue[j].departments)
  }

  lemma ScienceListsDisjoint()
    ensures DisjointFromLater(FacultyDepartments, 0)
  {
    var a := FacultyDepartments[0].departments;
    forall j, d | 0 < j < |FacultyDepartments| && d in a ensures d !in FacultyDepartments[j].departments {
      var m :| 0 <= m < |a| && a[m] == d;
    }
  }

  lemma BioSciencesListsDisjoint()
    ensures DisjointFromLater(FacultyDepartments, 1)
  {
    var a := FacultyDepartments[1].departments;
    forall j, d | 1 < j < |FacultyDepartments| && d in a ensures d !in FacultyDepartments[j].departments {
      var m :| 0 <= m < |a| && a[m] == d;
    }
  }

  lemma BusinessListsDisjoint()
    ensures DisjointFromLater(FacultyDepartments, 2)
  {
    var a := FacultyDepartments[2].departments;
    forall j, d | 2 < j < |FacultyDepartments| && d in a ensures d !in FacultyDepartments[j].departments {
      var m :| 0 <= m < |a| && a[m] == d;
    }
  }

  lemma SocialSciencesListsDisjoint()
    ensures DisjointFromLater(FacultyDepartments, 3)
  {
    var a := FacultyDepartments[3].departments;
    forall j, d | 3 < j < |FacultyDepartments| && d in a ensures d !in FacultyDepartments[j].departments {
      var m :| 0 <= m < |a| && a[m] == d;
    }
  }

  lemma ArtsListsDisjoint()
    ensures DisjointFromLater(FacultyDepartments, 4)
  {
    var a := FacultyDepartments[4].departments;
    forall j, d | 4 < j < |FacultyDepartments| && d in a ensures d !in FacultyDepartments[j].departments {
      var m :| 0 <= m < |a| && a[m] == d;
    }
  }

  /** Lists that are each disjoint from every later list are pairwise disjoint. */
  lemma DisjointFromEach(catalogue: Catalogue)
    requires forall i | 0 <= i < |catalogue| :: DisjointFromLater(catalogue, i)
    ensures DisjointDepartments(catalogue)
  {
    forall i, j | 0 <= i < j < |catalogue|
      ensures ListsDisjoint(catalogue[i].departments, catalogue[j].departments)
    {
      assert DisjointFromLater(catalogue, i);
    }
  }

  /** The configured catalogue lists every department under one faculty
      only, and none of its faculties is called `"Others"`. */
  lemma FacultyDepartmentsWellFormed()
    ensures DisjointDepartments(FacultyDepartments)
    ensures Others !in FacultyNames(FacultyDepartments)
  {
    ScienceListsDisjoint();
    BioSciencesListsDisjoint();
    BusinessListsDisjoint();
    SocialSciencesListsDisjoint();
    ArtsListsDisjoint();
    assert DisjointFromLater(FacultyDepartments, 5);
    DisjointFromEach(FacultyDepartments);
  }

  /** With the configured catalogue, a department is classified `"Others"`
      exactly when no faculty lists it. */
  lemma ConfiguredOthersIffUnlisted(dept: string)
    ensures GetFaculty(FacultyDepartments, dept) == Others <==> Unlisted(FacultyDepartments, dept)
  {
    FacultyDepartmentsWellFormed();
    ListedOrNot(FacultyDepartments, dept);
    if Unlisted(FacultyDepartments, dept) {
      GetFacultyUnlisted(FacultyDepartments, dept);
    } else {
      var k :| FirstListing(FacultyDepartments, dept, k);
      GetFacultyFirstListing(FacultyDepartments, dept, k);
      assert FacultyDepartments[k] in FacultyDepartments;
    }
  }

  /** Sample departments: one each from the first, second and last
      entries, and one the catalogue does not list. */
  lemma ExampleMathematics()
    ensures GetFaculty(FacultyDepartments, "Mathematics") == "Faculty of Science and Engineering"
  {
    assert FirstListing(FacultyDepartments, "Mathematics", 0);
    GetFacultyFirstListing(FacultyDepartments, "Mathematics", 0);
  }

  lemma ExampleBotany()
    ensures GetFaculty(FacultyDepartments, "Botany") == "Faculty of Bio-Sciences"
  {
    assert "Botany" !in FacultyDepartments[0].departments;
    assert FirstListing(FacultyDepartments, "Botany", 1);
    GetFacultyFirstListing(FacultyDepartments, "Botany", 1);
  }

  lemma ExampleLaw()
    ensures GetFaculty(FacultyDepartments, "Law") == "Faculty of Law"
  {
    var c := FacultyDepartments;
    assert "Law" !in c[0].departments && "Law" !in c[1].departments && "Law" !in c[2].departments;
    assert "Law" !in c[3].departments && "Law" !in c[4].departments;
    assert FirstListing(c, "Law", 5);
    GetFacultyFirstListing(c, "Law", 5);
  }

  lemma ExampleUnlisted()
    ensures GetFaculty(FacultyDepartments, "Astronomy") == Others
  {
    assert Unlisted(FacultyDepartments, "Astronomy");
    GetFacultyUnlisted(FacultyDepartments, "Astronomy");
  }
}
