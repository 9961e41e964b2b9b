/**
 * The `Bookmarks` table row (src/bookmark/entities/bookmark.entity.ts).
 *
 * `id` is the primary key; `userId` and `doId` are NOT NULL columns, so they are
 * plain strings; `createdBy` and `updatedBy` are nullable. The two timestamp
 * columns are ticks of a logical clock instead of wall-clock dates. The entity
 * declares no uniqueness on (userId, doId): nothing in this type forbids two rows
 * with the same pair.
 */
module BookmarkEntity {
  import opened Wrappers

  datatype Bookmark = Bookmark(
    id: string,
    userId: string,
    doId: string,
    createdAt: nat,
    updatedAt: nat,
    createdBy: Option<string>,
    updatedBy: Option<string>)
}
