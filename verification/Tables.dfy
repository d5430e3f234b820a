/** Rows of a database table as a map from its primary key. */
module Tables {

  /** Deleting rows that exist lowers the row count by as many. */
  lemma DeletedRows<K, V>(rows: map<K, V>, gone: set<K>)
    requires gone <= rows.Keys
    ensures |rows - gone| == |rows| - |gone|
  {
    var kept := rows - gone;
    assert rows.Keys == kept.Keys + gone;
    assert |rows.Keys| == |rows| && |kept.Keys| == |kept|;
  }
}
